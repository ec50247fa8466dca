/** The length-prefixed frame codec of the control endpoint, over a channel that moves any number of
    bytes at a time, stalls, breaks, runs out of time or is cancelled. */
module Frames {
  import opened Prelude

  const MAX_FRAME: nat := 64 * 1024

  datatype IoError = Cancelled | DeadlineElapsed | IoFailed | BadLength

  /** One call on the channel: at most `count` bytes moved, a retryable stall, or a hard error. */
  datatype Io = Moved(count: nat) | Stalled | Broken

  /** One round of a bounded loop: the stop flag, the call's result, and whether the clock read after
      it was still before the deadline. */
  datatype Round = Round(stop: bool, io: Io, inTime: bool)

  class Channel {
    var input: Bytes
    var output: Bytes

    constructor (incoming: Bytes)
      ensures input == incoming && output == []
    {
      input, output := incoming, [];
    }
  }

  /** Nothing goes wrong in the first `n` rounds. */
  predicate Smooth(rounds: seq<Round>, n: nat) {
    |rounds| >= n && forall i :: 0 <= i < n ==>
      !rounds[i].stop && rounds[i].inTime && rounds[i].io.Moved? && rounds[i].io.count > 0
  }

  /** None of the first `n` rounds meets a stop or a hard error. */
  predicate Unbroken(rounds: seq<Round>, n: int) {
    n <= |rounds| && forall k :: 0 <= k < n ==> !rounds[k].stop && !rounds[k].io.Broken?
  }

  /** Why a bounded loop ended in an error after `used` rounds: its last round saw the stop flag, met a hard error,
      or was over the deadline, or there was no time for another; and no round before it met a stop or a hard
      error. */
  predicate Cause(rounds: seq<Round>, used: nat, error: IoError) {
    && used <= |rounds|
    && Unbroken(rounds, used - 1)
    && match error
       case Cancelled => used > 0 && rounds[used - 1].stop
       case IoFailed => used > 0 && !rounds[used - 1].stop && rounds[used - 1].io.Broken?
       case DeadlineElapsed =>
         && (used > 0 ==> !rounds[used - 1].stop && !rounds[used - 1].io.Broken?)
         && (used == |rounds| || (used > 0 && !rounds[used - 1].inTime))
       case BadLength => false
  }

  /** Reads exactly `n` bytes or fails. Success means the next `n` bytes of the channel, in order;
      failure leaves fewer than `n` consumed. Smooth rounds succeed. */
  method ReadExactBounded(c: Channel, n: nat, rounds: seq<Round>) returns (r: Result<Bytes, IoError>, used: nat)
    modifies c`input
    ensures used <= |rounds|
    ensures r.Ok? ==> |r.value| == n && old(c.input) == r.value + c.input
    ensures r.Err? ==> |old(c.input)| < |c.input| + n && exists eaten :: old(c.input) == eaten + c.input
    ensures r.Ok? ==> Unbroken(rounds, used)
    ensures r.Err? ==> Cause(rounds, used, r.error)
    ensures Smooth(rounds, n) && |old(c.input)| >= n ==> r.Ok? && used <= n
  {
    var bytes: Bytes := [];
    used := 0;
    while |bytes| < n
      invariant |bytes| <= n && used <= |rounds| && old(c.input) == bytes + c.input
      invariant Unbroken(rounds, used)
      invariant Smooth(rounds, n) && |old(c.input)| >= n ==> used <= |bytes|
      decreases |rounds| - used
    {
      if used == |rounds| {
        return Err(DeadlineElapsed), used;
      }
      var round := rounds[used];
      used := used + 1;
      if round.stop {
        return Err(Cancelled), used;
      }
      match round.io
      case Broken => return Err(IoFailed), used;
      case Stalled =>
      case Moved(count) =>
        var k := Min(count, Min(n - |bytes|, |c.input|));
        bytes, c.input := bytes + c.input[..k], c.input[k..];
      assert old(c.input) == bytes + c.input;
      if !round.inTime && |bytes| < n {
        return Err(DeadlineElapsed), used;
      }
    }
    r := Ok(bytes);
  }

  lemma {:induction false} CauseLater(rounds: seq<Round>, used: nat, more: nat, error: IoError)
    requires used <= |rounds| && Unbroken(rounds, used) && Cause(rounds[used..], more, error)
    ensures Cause(rounds, used + more, error)
  {
    var later := rounds[used..];
    assert forall k :: used <= k < |rounds| ==> rounds[k] == later[k - used];
  }

  /** Writes all the bytes or fails part-way. Progress is not timed, only stalls are. */
  method WriteAllBounded(c: Channel, bytes: Bytes, rounds: seq<Round>) returns (r: Result<(), IoError>, used: nat)
    modifies c`output
    ensures used <= |rounds|
    ensures r.Ok? ==> c.output == old(c.output) + bytes
    ensures r.Err? ==> Cause(rounds, used, r.error) && exists k :: 0 <= k < |bytes| && c.output == old(c.output) + bytes[..k]
    ensures Smooth(rounds, |bytes|) ==> r.Ok?
  {
    var sent: nat := 0;
    used := 0;
    assert bytes[..0] == [];
    while sent < |bytes|
      invariant sent <= |bytes| && used <= |rounds| && c.output == old(c.output) + bytes[..sent]
      invariant Unbroken(rounds, used)
      invariant Smooth(rounds, |bytes|) ==> used <= sent
      decreases |rounds| - used
    {
      if used == |rounds| {
        return Err(DeadlineElapsed), used;
      }
      var round := rounds[used];
      used := used + 1;
      if round.stop {
        return Err(Cancelled), used;
      }
      if round.io.Broken? {
        return Err(IoFailed), used;
      }
      var k := if round.io.Moved? then Min(round.io.count, |bytes| - sent) else 0;
      if k == 0 && !round.inTime {
        return Err(DeadlineElapsed), used;
      }
      assert bytes[..sent] + bytes[sent..sent + k] == bytes[..sent + k];
      c.output, sent := c.output + bytes[sent..sent + k], sent + k;
    }
    assert bytes[..sent] == bytes;
    r := Ok(());
  }

  // ---------------------------------------------------------------------------------------------
  // Frames
  // ---------------------------------------------------------------------------------------------

  /** Big-endian 32-bit length. */
  function Be32(n: nat): Bytes
    requires n < 0x1_0000_0000
  {
    [n / 0x100_0000, n / 0x1_0000 % 0x100, n / 0x100 % 0x100, n % 0x100]
  }

  function FromBe32(b: Bytes): nat
    requires |b| == 4
  {
    b[0] as int * 0x100_0000 + b[1] as int * 0x1_0000 + b[2] as int * 0x100 + b[3] as int
  }

  lemma {:induction false} Be32RoundTrip(n: nat)
    requires n < 0x1_0000_0000
    ensures FromBe32(Be32(n)) == n
  {
    var a, b, c := n / 0x100_0000, n / 0x1_0000, n / 0x100;
    assert b == a * 0x100 + b % 0x100;
    assert c == b * 0x100 + c % 0x100;
  }

  lemma {:induction false} FromBe32RoundTrip(b: Bytes)
    requires |b| == 4
    ensures FromBe32(b) < 0x1_0000_0000 && Be32(FromBe32(b)) == b
  {
    var n := FromBe32(b);
    assert n / 0x100 == b[0] as int * 0x1_0000 + b[1] as int * 0x100 + b[2] as int;
    assert n / 0x1_0000 == b[0] as int * 0x100 + b[1] as int;
    assert n / 0x100_0000 == b[0];
  }

  /** The order of strings of bytes, the first difference deciding. */
  predicate Before(a: Bytes, b: Bytes)
    requires |a| == |b|
  {
    exists k :: 0 <= k < |a| && a[k] < b[k] && forall i :: 0 <= i < k ==> a[i] == b[i]
  }

  /** Lengths are ordered as their spellings are: the most significant byte comes first. */
  lemma {:induction false} Be32KeepsOrder(m: nat, n: nat)
    requires m < 0x1_0000_0000 && n < 0x1_0000_0000
    ensures m < n <==> Before(Be32(m), Be32(n))
  {
    if m < n {
      SmallerComesBefore(m, n);
    }
    if Before(Be32(m), Be32(n)) && n <= m {
      if n < m {
        SmallerComesBefore(n, m);
      }
      OneOrder(Be32(m), Be32(n));
    }
  }

  lemma {:induction false} OneOrder(a: Bytes, b: Bytes)
    requires |a| == |b| && Before(a, b)
    ensures a != b && !Before(b, a)
  {
    var k :| 0 <= k < |a| && a[k] < b[k] && forall i :: 0 <= i < k ==> a[i] == b[i];
  }

  /** Of two numbers the smaller has the smaller quotient, or the same and the smaller remainder. */
  lemma {:induction false} QuotientDecides(m: nat, n: nat)
    requires m < n
    ensures m / 0x100 < n / 0x100 || (m / 0x100 == n / 0x100 && m % 0x100 < n % 0x100)
  {
  }

  lemma {:induction false} SmallerComesBefore(m: nat, n: nat)
    requires m < n < 0x1_0000_0000
    ensures Before(Be32(m), Be32(n))
  {
    var a, b := Be32(m), Be32(n);
    Quotients(m);
    Quotients(n);
    QuotientDecides(m, n);
    if m / 0x100 == n / 0x100 {
      assert a[3] < b[3];
    } else {
      QuotientDecides(m / 0x100, n / 0x100);
      if m / 0x100 / 0x100 == n / 0x100 / 0x100 {
        assert a[2] < b[2];
      } else {
        QuotientDecides(m / 0x100 / 0x100, n / 0x100 / 0x100);
        assert a[0] < b[0] || a[1] < b[1];
      }
    }
  }

  /** The bytes of a number are what repeated division by 256 leaves, the last one first. */
  lemma {:induction false} Quotients(n: nat)
    requires n < 0x1_0000_0000
    ensures n / 0x1_0000 == n / 0x100 / 0x100 && n / 0x100_0000 == n / 0x100 / 0x100 / 0x100
    ensures Be32(n) == [n / 0x100 / 0x100 / 0x100, n / 0x100 / 0x100 % 0x100, n / 0x100 % 0x100, n % 0x100]
  {
  }

  predicate Sendable(p: Bytes) {
    1 <= |p| <= MAX_FRAME
  }

  function Encode(p: Bytes): Bytes
    requires Sendable(p)
  {
    Be32(|p|) + p
  }

  /** The channel starts with exactly the frame of `p`, and `rest` follows. */
  predicate Decodes(input: Bytes, p: Bytes, rest: Bytes) {
    Sendable(p) && input == Encode(p) + rest
  }

  lemma {:induction false} PrefixGivesLength(p: Bytes, rest: Bytes)
    requires Sendable(p)
    ensures |Encode(p) + rest| >= 4 && FromBe32((Encode(p) + rest)[..4]) == |p|
  {
    assert (Encode(p) + rest)[..4] == Be32(|p|);
    Be32RoundTrip(|p|);
  }

  /** A channel decodes in one way only. */
  lemma {:induction false} UniqueDecoding(input: Bytes, p: Bytes, r: Bytes, p': Bytes, r': Bytes)
    requires Decodes(input, p, r) && Decodes(input, p', r')
    ensures p == p' && r == r'
  {
    PrefixGivesLength(p, r);
    PrefixGivesLength(p', r');
    assert p == input[4..4 + |p|] && p' == input[4..4 + |p|];
    assert r == input[4 + |p|..] && r' == input[4 + |p|..];
  }

  /** Reads one frame or fails; a payload is never shortened, lengthened or shifted. A whole frame read
      smoothly is decoded; a length outside the bounds is refused. */
  method ReadFrame(c: Channel, rounds: seq<Round>) returns (r: Result<Bytes, IoError>, used: nat)
    modifies c`input
    ensures used <= |rounds|
    ensures r.Ok? ==> Decodes(old(c.input), r.value, c.input)
    ensures r == Err(BadLength) ==> forall p, rest :: !Decodes(old(c.input), p, rest)
    ensures r.Err? && r.error != BadLength ==> Cause(rounds, used, r.error)
    ensures forall p, rest :: Decodes(old(c.input), p, rest) && Smooth(rounds, |Encode(p)|) ==> r == Ok(p)
  {
    ghost var input := c.input;
    var head;
    head, used := ReadExactBounded(c, 4, rounds);
    if head.Err? {
      forall p, rest | Decodes(input, p, rest) ensures !Smooth(rounds, |Encode(p)|) {
        PrefixGivesLength(p, rest);
      }
      return Err(head.error), used;
    }
    assert head.value == input[..4];
    var length := FromBe32(head.value);
    forall p, rest | Decodes(input, p, rest) ensures |p| == length {
      PrefixGivesLength(p, rest);
    }
    if length == 0 || length > MAX_FRAME {
      return Err(BadLength), used;
    }
    ghost var afterHead := used;
    var more;
    r, more := ReadExactBounded(c, length, rounds[used..]);
    if r.Err? {
      CauseLater(rounds, used, more, r.error);
    }
    used := used + more;
    if r.Ok? {
      FromBe32RoundTrip(head.value);
      assert Decodes(input, r.value, c.input);
    }
    forall p, rest | Decodes(input, p, rest) && Smooth(rounds, |Encode(p)|) ensures r == Ok(p) {
      assert Smooth(rounds, 4) && afterHead <= 4;
      assert Smooth(rounds[afterHead..], length);
      UniqueDecoding(input, p, rest, r.value, c.input);
    }
  }

  /** Writes one frame; refused outright if the payload is empty or too long. A failure leaves a
      proper prefix of the frame behind. */
  method WriteFrame(c: Channel, p: Bytes, rounds: seq<Round>) returns (r: Result<(), IoError>, used: nat)
    modifies c`output
    ensures used <= |rounds|
    ensures r == Err(BadLength) <==> |p| == 0 || |p| > 65536
    ensures !Sendable(p) ==> c.output == old(c.output)
    ensures r.Err? && Sendable(p) ==> Cause(rounds, used, r.error)
    ensures r.Ok? ==> Sendable(p) && c.output == old(c.output) + Encode(p)
    ensures r.Err? && Sendable(p) ==> exists k :: 0 <= k < |Encode(p)| && c.output == old(c.output) + Encode(p)[..k]
    ensures Sendable(p) && Smooth(rounds, |Encode(p)|) ==> r.Ok?
  {
    if !Sendable(p) {
      return Err(BadLength), 0;
    }
    var frame := Be32(|p|) + p;
    assert frame == Encode(p);
    r, used := WriteAllBounded(c, frame, rounds);
  }

  // ---------------------------------------------------------------------------------------------
  // Sequences of frames
  // ---------------------------------------------------------------------------------------------

  predicate AllSendable(ps: seq<Bytes>) {
    forall i :: 0 <= i < |ps| ==> Sendable(ps[i])
  }

  function EncodeAll(ps: seq<Bytes>): Bytes
    requires AllSendable(ps)
  {
    if ps == [] then [] else Encode(ps[0]) + EncodeAll(ps[1..])
  }

  /** `qs` are decoded from `input` one after the other and `rest` is left. */
  ghost predicate DecodesAll(input: Bytes, qs: seq<Bytes>, rest: Bytes)
    decreases qs
  {
    if qs == [] then rest == input
    else exists mid :: Decodes(input, qs[0], mid) && DecodesAll(mid, qs[1..], rest)
  }

  /** What is left on the wire when a writer broke off: a proper prefix of the frame of `next`. */
  predicate Fragment(part: Bytes, next: Option<Bytes>) {
    if next.None? then part == []
    else Sendable(next.value) && |part| < |Encode(next.value)| && part == Encode(next.value)[..|part|]
  }

  lemma {:induction false} FragmentDecodesNothing(part: Bytes, next: Option<Bytes>, q: Bytes, rest: Bytes)
    requires Fragment(part, next)
    ensures !Decodes(part, q, rest)
  {
    if next.Some? && |part| >= 4 {
      var frame := Encode(next.value);
      PrefixGivesLength(next.value, []);
      assert frame + [] == frame;
      assert part[..4] == frame[..4];
    }
    if Sendable(q) {
      PrefixGivesLength(q, rest);
    }
  }

  lemma {:induction false} FirstArrives(ps: seq<Bytes>, part: Bytes, q: Bytes, mid: Bytes)
    requires AllSendable(ps) && ps != [] && Decodes(EncodeAll(ps) + part, q, mid)
    ensures q == ps[0] && mid == EncodeAll(ps[1..]) + part
  {
    var tail := EncodeAll(ps[1..]) + part;
    assert EncodeAll(ps) + part == Encode(ps[0]) + tail;
    UniqueDecoding(EncodeAll(ps) + part, q, mid, ps[0], tail);
  }

  lemma {:induction false} PrefixFromTail(ps: seq<Bytes>, qs: seq<Bytes>)
    requires ps != [] && qs != [] && qs[0] == ps[0]
    requires |qs| <= |ps| && qs[1..] == ps[1..][..|qs| - 1]
    ensures qs == ps[..|qs|] && ps[1..][|qs| - 1..] == ps[|qs|..]
  {
    assert qs == [qs[0]] + qs[1..];
    assert ps[..|qs|] == [ps[0]] + ps[1..][..|qs| - 1];
  }

  /** End to end: whatever the reader decodes from a wire that holds the frames of `ps` and perhaps a
      fragment of one more is a prefix of `ps`, and the wire is left exactly after it. */
  lemma {:induction false} FramesArriveIntact(ps: seq<Bytes>, part: Bytes, next: Option<Bytes>, qs: seq<Bytes>, rest: Bytes)
    requires AllSendable(ps) && Fragment(part, next)
    requires DecodesAll(EncodeAll(ps) + part, qs, rest)
    ensures |qs| <= |ps| && qs == ps[..|qs|]
    ensures rest == EncodeAll(ps[|qs|..]) + part
    decreases qs
  {
    if qs == [] {
      assert ps[0..] == ps;
    } else {
      var mid :| Decodes(EncodeAll(ps) + part, qs[0], mid) && DecodesAll(mid, qs[1..], rest);
      if ps == [] {
        assert EncodeAll(ps) + part == part;
        FragmentDecodesNothing(part, next, qs[0], mid);
      } else {
        FirstArrives(ps, part, qs[0], mid);
        FramesArriveIntact(ps[1..], part, next, qs[1..], rest);
        PrefixFromTail(ps, qs);
      }
    }
  }

  /** The wire holds the frames of `ps`, one per element of `rounds`, and nothing disturbs the reads. */
  predicate SmoothRead(input: Bytes, ps: seq<Bytes>, tail: Bytes, rounds: seq<seq<Round>>) {
    && AllSendable(ps) && |ps| == |rounds|
    && input == EncodeAll(ps) + tail
    && forall k :: 0 <= k < |ps| ==> Smooth(rounds[k], |Encode(ps[k])|)
  }

  /** Reads frames until one fails: the payloads decoded from what the channel held at first. If the
      reads are undisturbed, exactly the payloads `ps` that were sent come out, in any chunking. */
  method ReadFrames(c: Channel, rounds: seq<seq<Round>>, ghost ps: seq<Bytes>, ghost tail: Bytes)
    returns (qs: seq<Bytes>, ghost rest: Bytes)
    modifies c`input
    ensures |qs| <= |rounds| && DecodesAll(old(c.input), qs, rest)
    ensures |qs| == |rounds| ==> rest == c.input
    ensures SmoothRead(old(c.input), ps, tail, rounds) ==> qs == ps && c.input == tail
  {
    qs, rest := [], c.input;
    assert ps[0..] == ps;
    while |qs| < |rounds|
      invariant |qs| <= |rounds| && DecodesAll(old(c.input), qs, rest) && rest == c.input
      invariant SmoothRead(old(c.input), ps, tail, rounds) ==>
                  qs == ps[..|qs|] && c.input == EncodeAll(ps[|qs|..]) + tail
    {
      var k := |qs|;
      if SmoothRead(old(c.input), ps, tail, rounds) {
        NextOnWire(ps, k, tail);
      }
      var r, _ := ReadFrame(c, rounds[k]);
      if r.Err? {
        return;
      }
      if SmoothRead(old(c.input), ps, tail, rounds) {
        NextArrives(ps, k, tail, r.value, c.input);
      }
      DecodesOneMore(old(c.input), qs, rest, r.value, c.input);
      qs, rest := qs + [r.value], c.input;
    }
  }

  lemma {:induction false} NextOnWire(ps: seq<Bytes>, k: nat, tail: Bytes)
    requires AllSendable(ps) && k < |ps|
    ensures Decodes(EncodeAll(ps[k..]) + tail, ps[k], EncodeAll(ps[k + 1..]) + tail)
  {
    assert ps[k..][1..] == ps[k + 1..];
  }

  lemma {:induction false} NextArrives(ps: seq<Bytes>, k: nat, tail: Bytes, q: Bytes, mid: Bytes)
    requires AllSendable(ps) && k < |ps| && Decodes(EncodeAll(ps[k..]) + tail, q, mid)
    ensures ps[..k] + [q] == ps[..k + 1] && mid == EncodeAll(ps[k + 1..]) + tail
  {
    FirstArrives(ps[k..], tail, q, mid);
    assert ps[k..][1..] == ps[k + 1..];
  }

  lemma {:induction false} DecodesOneMore(input: Bytes, qs: seq<Bytes>, mid: Bytes, p: Bytes, rest: Bytes)
    requires DecodesAll(input, qs, mid) && Decodes(mid, p, rest)
    ensures DecodesAll(input, qs + [p], rest)
    decreases qs
  {
    if qs == [] {
      assert (qs + [p])[1..] == [];
      assert DecodesAll(rest, [], rest);
    } else {
      var next :| Decodes(input, qs[0], next) && DecodesAll(next, qs[1..], mid);
      DecodesOneMore(next, qs[1..], mid, p, rest);
      assert (qs + [p])[1..] == qs[1..] + [p];
    }
  }

  /** Writes frames until one fails: the wire then holds the frames of the first `sent` payloads and a
      fragment of the next. */
  method WriteFrames(c: Channel, ps: seq<Bytes>, rounds: seq<seq<Round>>) returns (sent: nat)
    requires AllSendable(ps) && |rounds| == |ps|
    modifies c`output
    ensures sent <= |ps|
    ensures exists part :: c.output == old(c.output) + EncodeAll(ps[..sent]) + part
                           && Fragment(part, if sent < |ps| then Some(ps[sent]) else None)
    ensures (forall k :: 0 <= k < |ps| ==> Smooth(rounds[k], |Encode(ps[k])|)) ==> sent == |ps|
  {
    sent := 0;
    assert c.output == old(c.output) + EncodeAll(ps[..0]) + [];
    while sent < |ps|
      invariant sent <= |ps| && c.output == old(c.output) + EncodeAll(ps[..sent])
    {
      ghost var before := c.output;
      var r, _ := WriteFrame(c, ps[sent], rounds[sent]);
      if r.Err? {
        ghost var k :| 0 <= k < |Encode(ps[sent])| && c.output == before + Encode(ps[sent])[..k];
        assert Fragment(Encode(ps[sent])[..k], Some(ps[sent]));
        return;
      }
      EncodeOneMore(ps[..sent], ps[sent]);
      assert ps[..sent] + [ps[sent]] == ps[..sent + 1];
      sent := sent + 1;
    }
    assert c.output == old(c.output) + EncodeAll(ps[..sent]) + [];
  }

  lemma {:induction false} EncodeOneMore(ps: seq<Bytes>, p: Bytes)
    requires AllSendable(ps) && Sendable(p)
    ensures EncodeAll(ps + [p]) == EncodeAll(ps) + Encode(p)
  {
    if ps == [] {
      assert (ps + [p])[1..] == [];
    } else {
      EncodeOneMore(ps[1..], p);
      assert (ps + [p])[1..] == ps[1..] + [p];
    }
  }
}
