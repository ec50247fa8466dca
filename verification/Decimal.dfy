/** Decimal spelling of natural numbers, and what spellings separated by dots give away. */
module Decimal {
  predicate IsDigit(c: char) {
    '0' <= c <= '9'
  }

  function Digit(n: nat): char
    requires n < 10
  {
    (48 + n) as char
  }

  function Dec(n: nat): string {
    if n < 10 then [Digit(n)] else Dec(n / 10) + [Digit(n % 10)]
  }

  function DigitValue(c: char): nat
    requires IsDigit(c)
  {
    c as int - 48
  }

  predicate AllDigits(s: string) {
    forall i :: 0 <= i < |s| ==> IsDigit(s[i])
  }

  /** The value of a string of digits. */
  function Value(s: string): nat
    requires AllDigits(s)
  {
    if s == [] then 0 else 10 * Value(s[..|s| - 1]) + DigitValue(s[|s| - 1])
  }

  /** Spelling a number and reading it back is the identity; the spelling is digits only. */
  lemma {:induction false} DecRoundTrip(n: nat)
    ensures Dec(n) != [] && AllDigits(Dec(n)) && Value(Dec(n)) == n
  {
    if n < 10 {
      assert Dec(n)[..0] == [];
    } else {
      DecRoundTrip(n / 10);
      assert Dec(n)[..|Dec(n)| - 1] == Dec(n / 10);
    }
  }

  /** Spelled without needless zeros. */
  predicate Canonical(s: string) {
    s != [] && AllDigits(s) && (s[0] == '0' ==> |s| == 1)
  }

  lemma {:induction false} ValuePositive(s: string)
    requires AllDigits(s) && s != [] && s[0] != '0'
    ensures Value(s) >= 1
  {
    if |s| > 1 {
      ValuePositive(s[..|s| - 1]);
    }
  }

  lemma {:induction false} DecIsCanonical(n: nat)
    ensures Canonical(Dec(n)) && (Dec(n)[0] == '0' ==> n == 0)
  {
    DecRoundTrip(n);
    if n >= 10 {
      DecIsCanonical(n / 10);
    }
  }

  /** Of all the ways to spell a number, exactly the canonical one is produced. */
  lemma {:induction false} OnlyCanonicalIsSpelled(s: string)
    requires AllDigits(s) && s != []
    ensures Dec(Value(s)) == s <==> Canonical(s)
  {
    DecIsCanonical(Value(s));
    if Canonical(s) && |s| > 1 {
      var init, d := s[..|s| - 1], DigitValue(s[|s| - 1]);
      ValuePositive(init);
      OnlyCanonicalIsSpelled(init);
      assert Value(s) == 10 * Value(init) + d;
      assert Value(s) / 10 == Value(init) && Value(s) % 10 == d;
      assert s == init + [Digit(d)];
    } else if Canonical(s) {
      assert s[..0] == [];
    }
  }

  predicate NoDot(s: string) {
    forall i :: 0 <= i < |s| ==> s[i] != '.'
  }

  lemma {:induction false} DecNoDot(n: nat)
    ensures NoDot(Dec(n))
  {
    DecRoundTrip(n);
  }

  /** The first dot splits a string in one way only. */
  lemma {:induction false} SplitAtFirstDot(a: string, x: string, b: string, y: string)
    requires NoDot(a) && NoDot(b) && a + "." + x == b + "." + y
    ensures a == b && x == y
  {
    var s, t := a + "." + x, b + "." + y;
    assert |a| == |b| by {
      assert s[|a|] == '.' && t[|b|] == '.';
      assert forall i :: 0 <= i < |a| ==> s[i] == a[i];
      assert forall i :: 0 <= i < |b| ==> t[i] == b[i];
    }
    assert a == s[..|a|] && b == t[..|a|];
    assert x == s[|a| + 1..] && y == t[|a| + 1..];
  }
}
