/** Generation directory names and the operator's spelling of a rollback target. */
module GenerationNames {
  import opened Prelude
  import opened Decimal

  const U64_END: nat := 0x1_0000_0000_0000_0000

  /** `str::parse::<u64>`: an optional plus sign, at least one digit, nothing else, and in range. */
  function ParseU64(s: string): Option<nat> {
    var digits := if s != [] && s[0] == '+' then s[1..] else s;
    if digits != [] && AllDigits(digits) && Value(digits) < U64_END then Some(Value(digits)) else None
  }

  const PREFIX: string := "gen-"

  function GenerationName(n: nat): string {
    PREFIX + Dec(n)
  }

  function ParseGeneration(name: string): Option<nat> {
    if |name| >= 4 && name[..4] == PREFIX then ParseU64(name[4..]) else None
  }

  /** White space as Unicode has it. */
  predicate Space(c: char) {
    var u := c as int;
    || 0x09 <= u <= 0x0D || u in {0x20, 0x85, 0xA0, 0x1680}
    || 0x2000 <= u <= 0x200A || u in {0x2028, 0x2029, 0x202F, 0x205F, 0x3000}
  }

  function Trim(s: string): string {
    if s == [] then s
    else if Space(s[0]) then Trim(s[1..])
    else if Space(s[|s| - 1]) then Trim(s[..|s| - 1])
    else s
  }

  /** Accepts the full spelling or a bare number; anything else is refused. */
  function NormalizeGenerationName(target: string): Option<string> {
    var t := Trim(target);
    match ParseGeneration(t)
    case Some(n) => Some(GenerationName(n))
    case None =>
      match ParseU64(t)
      case Some(n) => Some(GenerationName(n))
      case None => None
  }

  predicate AllSpace(s: string) {
    forall i :: 0 <= i < |s| ==> Space(s[i])
  }

  /** Trimming removes exactly the padding. */
  lemma {:induction false} TrimRemovesPadding(a: string, s: string, b: string)
    requires AllSpace(a) && AllSpace(b) && s != [] && !Space(s[0]) && !Space(s[|s| - 1])
    ensures Trim(a + s + b) == s
    decreases |a| + |b|
  {
    var t := a + s + b;
    if a != [] {
      assert t[0] == a[0] && t[1..] == a[1..] + s + b;
      TrimRemovesPadding(a[1..], s, b);
    } else if b != [] {
      assert t[0] == s[0] && t[|t| - 1] == b[|b| - 1] && t[..|t| - 1] == a + s + b[..|b| - 1];
      TrimRemovesPadding(a, s, b[..|b| - 1]);
    } else {
      assert t == s;
    }
  }

  lemma {:induction false} ParseU64OfDec(n: nat)
    ensures ParseU64(Dec(n)) == if n < U64_END then Some(n) else None
  {
    DecRoundTrip(n);
  }

  /** A generation's name names it, as far as 64 bits reach; distinct numbers have distinct names. */
  lemma {:induction false} NameRoundTrip(n: nat)
    ensures ParseGeneration(GenerationName(n)) == if n < U64_END then Some(n) else None
  {
    assert GenerationName(n)[..4] == PREFIX && GenerationName(n)[4..] == Dec(n);
    ParseU64OfDec(n);
  }

  lemma {:induction false} BareNumberIsNoName(n: nat)
    ensures ParseGeneration(Dec(n)) == None
  {
    DecRoundTrip(n);
    if |Dec(n)| >= 4 {
      assert Dec(n)[..4][0] == Dec(n)[0];
    }
  }

  /** A name stands for the number it parses to, but it is that number's own name only when it is spelled
      without a plus sign and without needless zeros. */
  lemma {:induction false} OwnNameIff(name: string)
    requires ParseGeneration(name).Some?
    ensures name == GenerationName(ParseGeneration(name).value) <==> Canonical(name[4..])
  {
    var s := name[4..];
    assert name == PREFIX + s;
    if s[0] != '+' {
      OnlyCanonicalIsSpelled(s);
    } else {
      DecRoundTrip(ParseGeneration(name).value);
    }
  }

  lemma {:induction false} NormalizePadded(s: string, a: string, b: string)
    requires AllSpace(a) && AllSpace(b) && s != [] && !Space(s[0]) && !Space(s[|s| - 1])
    ensures NormalizeGenerationName(a + s + b) == NormalizeGenerationName(s)
  {
    TrimRemovesPadding(a, s, b);
    TrimRemovesPadding([], s, []);
    assert [] + s + [] == s;
  }

  /** Both spellings of a target, however padded, mean the same generation. */
  lemma {:induction false} BothSpellingsAgree(n: nat, a: string, b: string)
    requires n < U64_END && AllSpace(a) && AllSpace(b)
    ensures NormalizeGenerationName(a + GenerationName(n) + b) == Some(GenerationName(n))
    ensures NormalizeGenerationName(a + Dec(n) + b) == Some(GenerationName(n))
  {
    DecRoundTrip(n);
    assert GenerationName(n)[|GenerationName(n)| - 1] == Dec(n)[|Dec(n)| - 1];
    NormalizePadded(GenerationName(n), a, b);
    NormalizePadded(Dec(n), a, b);
    NameRoundTrip(n);
    ParseU64OfDec(n);
    BareNumberIsNoName(n);
  }

  /** Whatever is accepted is the own name of a generation. */
  lemma {:induction false} NormalizeIsCanonical(target: string)
    requires NormalizeGenerationName(target).Some?
    ensures var name := NormalizeGenerationName(target).value;
            ParseGeneration(name).Some? && name == GenerationName(ParseGeneration(name).value)
  {
    var t := Trim(target);
    var n := if ParseGeneration(t).Some? then ParseGeneration(t).value else ParseU64(t).value;
    NameRoundTrip(n);
  }

  /** `s` is digits, perhaps after a plus sign, that spell `n` within 64 bits. */
  predicate Spells(s: string, n: nat) {
    var d := if s != [] && s[0] == '+' then s[1..] else s;
    d != [] && AllDigits(d) && Value(d) == n && n < 0x1_0000_0000_0000_0000
  }

  /** `s` is what an operator may call generation `n`: its number, or `gen-` and its number. */
  predicate Calls(s: string, n: nat) {
    Spells(s, n) || (|s| >= 4 && s[..4] == "gen-" && Spells(s[4..], n))
  }

  lemma {:induction false} SpellingEnds(s: string, n: nat)
    requires Calls(s, n)
    ensures s != [] && !Space(s[0]) && !Space(s[|s| - 1])
    ensures Spells(s, n) ==> s[0] != 'g'
  {
    var t := if Spells(s, n) then s else s[4..];
    assert t[|t| - 1] == s[|s| - 1];
    if !Spells(s, n) {
      assert s[0] == s[..4][0];
    }
  }

  /** A target is what is left without the white space around it. */
  lemma {:induction false} TrimSplits(s: string) returns (a: string, b: string)
    ensures s == a + Trim(s) + b && AllSpace(a) && AllSpace(b)
  {
    a, b := [], [];
    if s != [] && Space(s[0]) {
      a, b := TrimSplits(s[1..]);
      PaddedBefore(s, a, Trim(s), b);
      a := [s[0]] + a;
    } else if s != [] && Space(s[|s| - 1]) {
      a, b := TrimSplits(s[..|s| - 1]);
      PaddedAfter(s, a, Trim(s), b);
      b := b + [s[|s| - 1]];
    } else {
      assert [] + s + [] == s;
    }
  }

  lemma {:induction false} PaddedBefore(s: string, a: string, t: string, b: string)
    requires s != [] && s[1..] == a + t + b && Space(s[0]) && AllSpace(a)
    ensures s == [s[0]] + a + t + b && AllSpace([s[0]] + a)
  {
    assert s == [s[0]] + (a + t + b);
  }

  lemma {:induction false} PaddedAfter(s: string, a: string, t: string, b: string)
    requires s != [] && s[..|s| - 1] == a + t + b && Space(s[|s| - 1]) && AllSpace(b)
    ensures s == a + t + (b + [s[|s| - 1]]) && AllSpace(b + [s[|s| - 1]])
  {
    assert s == (a + t + b) + [s[|s| - 1]];
  }

  /** Every target that calls a generation by its number or its name, however padded, is taken for it. */
  lemma {:induction false} CalledIsAccepted(a: string, s: string, b: string, n: nat)
    requires AllSpace(a) && AllSpace(b) && Calls(s, n)
    ensures NormalizeGenerationName(a + s + b) == Some("gen-" + Dec(n))
  {
    SpellingEnds(s, n);
    TrimRemovesPadding(a, s, b);
    if Spells(s, n) && |s| >= 4 {
      assert s[..4][0] == s[0];
    }
  }

  /** And nothing else is: whatever is accepted calls the generation it is taken for. */
  lemma {:induction false} AcceptedIsCalled(target: string) returns (a: string, s: string, b: string, n: nat)
    requires NormalizeGenerationName(target).Some?
    ensures target == a + s + b && AllSpace(a) && AllSpace(b) && Calls(s, n)
    ensures NormalizeGenerationName(target) == Some("gen-" + Dec(n))
  {
    a, b := TrimSplits(target);
    s := Trim(target);
    n := if ParseGeneration(s).Some? then ParseGeneration(s).value else ParseU64(s).value;
  }
}
