/** The arithmetic that confirms what a pattern proposes: Luhn for cards, modulo 97 for IBANs. */
module Checksums {
  import opened Characters
  import opened Options

  type digit = x: int | 0 <= x < 10

  function DigitsOf(m: string): (d: seq<digit>)
    ensures |d| <= |m|
  {
    if m == [] then []
    else if IsDigit(m[|m| - 1]) then DigitsOf(m[..|m| - 1]) + [(m[|m| - 1] - '0') as int]
    else DigitsOf(m[..|m| - 1])
  }

  /** A doubled digit counts as the sum of its own digits. */
  function Weighed(x: digit, double: bool): digit {
    if !double then x else if 2 * x > 9 then 2 * x - 9 else 2 * x
  }

  /** Every second digit doubled, counting from the right; `double` says whether the last one is. */
  function LuhnSum(d: seq<digit>, double: bool): nat {
    if d == [] then 0
    else LuhnSum(d[..|d| - 1], !double) + Weighed(d[|d| - 1], double)
  }

  predicate Luhn(m: string) {
    13 <= |DigitsOf(m)| <= 19 && LuhnSum(DigitsOf(m), false) % 10 == 0
  }

  method LuhnValid(m: string) returns (ok: bool)
    ensures ok <==> Luhn(m)
  {
    var d := DigitsOf(m);
    if !(13 <= |d| <= 19) {
      return false;
    }
    var sum: nat, double, i := 0, false, |d|;
    assert d[..i] == d;
    while i > 0
      invariant i <= |d|
      invariant LuhnSum(d, false) == sum + LuhnSum(d[..i], double)
    {
      i := i - 1;
      assert d[..i + 1][..i] == d[..i];
      var v: nat := d[i];
      if double {
        v := v * 2;
        if v > 9 {
          v := v - 9;
        }
      }
      sum := sum + v;
      double := !double;
    }
    return sum % 10 == 0;
  }

  /** What the `n`-th digit from the left counts: as it is at an even distance from the right end, and at an odd
      one doubled, its own digits added. */
  function Counts(d: seq<digit>, n: nat): nat
    requires n < |d|
  {
    var twice: nat := 2 * (d[n] as int);
    if (|d| - 1 - n) % 2 == 0 then d[n] else twice / 10 + twice % 10
  }

  function CountsTo(d: seq<digit>, n: nat): nat
    requires n <= |d|
  {
    if n == 0 then 0 else CountsTo(d, n - 1) + Counts(d, n - 1)
  }

  /** One digit less on the right swaps which are doubled. */
  lemma {:induction false} TwoFewer(d: seq<digit>, n: nat)
    requires |d| >= 2 && n <= |d| - 2
    ensures CountsTo(d[..|d| - 2], n) == CountsTo(d, n)
  {
    if n > 0 {
      TwoFewer(d, n - 1);
      assert d[..|d| - 2][n - 1] == d[n - 1];
    }
  }

  /** The sum taken from the right is the sum by position: the rightmost digit is never doubled. */
  lemma {:induction false} LuhnByPosition(d: seq<digit>)
    ensures LuhnSum(d, false) == CountsTo(d, |d|)
    decreases |d|
  {
    var n := |d|;
    if n == 1 {
      assert d[..0] == [];
    } else if n >= 2 {
      var front, rest := d[..n - 1], d[..n - 2];
      assert front[..n - 2] == rest && front[n - 2] == d[n - 2];
      assert LuhnSum(d, false) == Counts(d, n - 1) + LuhnSum(front, true);
      assert LuhnSum(front, true) == Counts(d, n - 2) + LuhnSum(rest, false);
      LuhnByPosition(rest);
      TwoFewer(d, n - 2);
      assert CountsTo(d, n - 1) == CountsTo(d, n - 2) + Counts(d, n - 2);
    }
  }

  /** A number passes exactly when it has 13 to 19 digits whose counts by position add up to a multiple of ten. */
  lemma LuhnIsByPosition(m: string)
    ensures var d := DigitsOf(m); Luhn(m) <==> 13 <= |d| <= 19 && CountsTo(d, |d|) % 10 == 0
  {
    LuhnByPosition(DigitsOf(m));
  }

  lemma WeighedIsInjective(x: digit, y: digit, double: bool)
    requires x != y
    ensures Weighed(x, double) != Weighed(y, double)
  {
  }

  lemma {:induction false} OneDigitMovesTheSum(d: seq<digit>, i: nat, x: digit, double: bool)
    requires i < |d| && x != d[i]
    ensures var delta := LuhnSum(d[i := x], double) - LuhnSum(d, double);
      delta != 0 && -10 < delta < 10
  {
    var e, n := d[i := x], |d| - 1;
    if i == n {
      assert e[..n] == d[..n];
      WeighedIsInjective(x, d[n], double);
    } else {
      assert e[..n] == d[..n][i := x];
      OneDigitMovesTheSum(d[..n], i, x, !double);
    }
  }

  /** One mistyped digit never goes unnoticed. */
  lemma LuhnCatchesOneDigit(d: seq<digit>, i: nat, x: digit)
    requires i < |d| && x != d[i] && LuhnSum(d, false) % 10 == 0
    ensures LuhnSum(d[i := x], false) % 10 != 0
  {
    OneDigitMovesTheSum(d, i, x, false);
  }

  lemma {:induction false} DigitsConcat(a: string, b: string)
    ensures DigitsOf(a + b) == DigitsOf(a) + DigitsOf(b)
    decreases |b|
  {
    if b == [] {
      assert a + b == a;
    } else {
      var n := |a + b| - 1;
      assert (a + b)[..n] == a + b[..|b| - 1];
      DigitsConcat(a, b[..|b| - 1]);
    }
  }

  // ----- IBAN (ISO 13616) -----

  /** A letter stands for a two-digit number. */
  function CharValue(c: char): Option<nat> {
    if IsDigit(c) then Some((c - '0') as nat)
    else if 'A' <= c <= 'Z' then Some((c - 'A') as nat + 10)
    else None
  }

  /** The number the characters spell, letters expanded; None when one is neither digit nor capital. */
  function Spelled(s: string): Option<nat> {
    if s == [] then Some(0)
    else
      var high, low := Spelled(s[..|s| - 1]), CharValue(s[|s| - 1]);
      if high.None? || low.None? then None
      else Some((if low.value < 10 then 10 else 100) * high.value + low.value)
  }

  lemma {:induction false} SpelledPrefix(s: string, n: nat)
    requires n <= |s| && Spelled(s).Some?
    ensures Spelled(s[..n]).Some?
    decreases |s|
  {
    if n < |s| {
      assert s[..|s| - 1][..n] == s[..n];
      SpelledPrefix(s[..|s| - 1], n);
    } else {
      assert s[..n] == s;
    }
  }

  lemma StepModulo(n: nat, v: nat, factor: nat)
    requires factor == 10 || factor == 100
    ensures (n % 97 * factor + v) % 97 == (factor * n + v) % 97
  {
    var q, r := n / 97, n % 97;
    assert n == 97 * q + r;
    if factor == 10 {
      assert 10 * n + v == (10 * q) * 97 + (r * 10 + v);
      SameRemainder(r * 10 + v, 10 * q);
    } else {
      assert 100 * n + v == (100 * q) * 97 + (r * 100 + v);
      SameRemainder(r * 100 + v, 100 * q);
    }
  }

  lemma {:induction false} SameRemainder(x: nat, k: nat)
    ensures (k * 97 + x) % 97 == x % 97
  {
    if k > 0 {
      SameRemainder(x, k - 1);
      assert k * 97 + x == ((k - 1) * 97 + x) + 97;
    }
  }

  /** The remainder carried from character to character is that of the whole number. */
  method IbanValid(m: string) returns (ok: bool)
    requires |m| >= 4
    ensures var n := Spelled(m[4..] + m[..4]);
      ok <==> n.Some? && n.value % 97 == 1
  {
    var s := m[4..] + m[..4];
    var rem: nat := 0;
    assert s[..0] == [];
    for i := 0 to |s|
      invariant Spelled(s[..i]).Some? && rem == Spelled(s[..i]).value % 97
    {
      assert s[..i + 1][..i] == s[..i];
      var v := CharValue(s[i]);
      if v.None? {
        if Spelled(s).Some? {
          SpelledPrefix(s, i + 1);
        }
        return false;
      }
      StepModulo(Spelled(s[..i]).value, v.value, if v.value < 10 then 10 else 100);
      rem := if v.value < 10 then (rem * 10 + v.value) % 97 else (rem * 100 + v.value) % 97;
    }
    assert s[..|s|] == s;
    return rem == 1;
  }
}
