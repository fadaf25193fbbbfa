/**
 * The parts of JavaScript's string semantics the verification utilities rely on:
 * ASCII case mapping, `String.prototype.substring` with its index clamping, and
 * the decimal rendering of a non-negative integer in a template literal.
 */
module JsStrings {

  function Min(a: int, b: int): int { if a <= b then a else b }
  function Max(a: int, b: int): int { if a <= b then b else a }

  /** `toLowerCase` restricted to ASCII letters. */
  function LowerChar(c: char): char
  {
    if 'A' <= c <= 'Z' then (c as int + 32) as char else c
  }

  /** `toUpperCase` restricted to ASCII letters. */
  function UpperChar(c: char): char
  {
    if 'a' <= c <= 'z' then (c as int - 32) as char else c
  }

  function ToLowerCase(s: string): (r: string)
    ensures |r| == |s|
    ensures forall i :: 0 <= i < |s| ==> r[i] == LowerChar(s[i])
  {
    seq(|s|, i requires 0 <= i < |s| => LowerChar(s[i]))
  }

  function ToUpperCase(s: string): (r: string)
    ensures |r| == |s|
    ensures forall i :: 0 <= i < |s| ==> r[i] == UpperChar(s[i])
  {
    seq(|s|, i requires 0 <= i < |s| => UpperChar(s[i]))
  }

  /** Lowercasing forgets every case distinction that uppercasing makes. */
  lemma LowerOfUpper(s: string)
    ensures ToLowerCase(ToUpperCase(s)) == ToLowerCase(s)
  {
    var a, b := ToLowerCase(ToUpperCase(s)), ToLowerCase(s);
    assert |a| == |b|;
    forall i | 0 <= i < |a| ensures a[i] == b[i] {
      assert a[i] == LowerChar(UpperChar(s[i]));
    }
  }

  /** Lowercasing twice is lowercasing once. */
  lemma LowerIdempotent(s: string)
    ensures ToLowerCase(ToLowerCase(s)) == ToLowerCase(s)
  {
    var a, b := ToLowerCase(ToLowerCase(s)), ToLowerCase(s);
    forall i | 0 <= i < |a| ensures a[i] == b[i] {
      assert a[i] == LowerChar(LowerChar(s[i]));
    }
  }

  /** An index argument of `substring`, clamped into `[0, n]`. */
  function Clamp(i: int, n: nat): (r: nat)
    ensures r <= n
    ensures 0 <= i <= n ==> r == i
  {
    if i < 0 then 0 else if i > n then n else i
  }

  /**
   * `s.substring(start, end)`: both indices are clamped to `[0, |s|]`, and if the
   * first exceeds the second the two are swapped.
   */
  function Substring(s: string, start: int, end: int): (r: string)
    ensures |r| == Max(Clamp(start, |s|), Clamp(end, |s|)) - Min(Clamp(start, |s|), Clamp(end, |s|))
    ensures forall i :: 0 <= i < |r| ==> r[i] == s[Min(Clamp(start, |s|), Clamp(end, |s|)) + i]
  {
    var a, b := Clamp(start, |s|), Clamp(end, |s|);
    if a <= b then s[a..b] else s[b..a]
  }

  /** `s.substring(start)`: the end defaults to the length. */
  function SubstringFrom(s: string, start: int): (r: string)
    ensures r == s[Clamp(start, |s|)..]
  {
    Substring(s, start, |s|)
  }

  /** A slice written with JavaScript's clamping is the Dafny slice between the clamped bounds. */
  lemma SubstringIsSlice(s: string, start: int, end: int)
    requires Clamp(start, |s|) <= Clamp(end, |s|)
    ensures Substring(s, start, end) == s[Clamp(start, |s|)..Clamp(end, |s|)]
  {
  }

  predicate IsDigit(c: char) { '0' <= c <= '9' }

  predicate AllDigits(s: string)
  {
    forall i :: 0 <= i < |s| ==> IsDigit(s[i])
  }

  function DigitChar(d: nat): (c: char)
    requires d < 10
    ensures IsDigit(c)
  {
    ('0' as int + d) as char
  }

  /** The decimal text of `n`, as `${n}` prints a non-negative integer. */
  function NatToString(n: nat): (r: string)
    ensures |r| > 0 && AllDigits(r)
    ensures r[0] == '0' ==> n == 0
    decreases n
  {
    if n < 10 then [DigitChar(n)] else NatToString(n / 10) + [DigitChar(n % 10)]
  }

  /** The value of a string of decimal digits (the inverse of `NatToString`). */
  function ParseDigits(s: string): nat
    requires AllDigits(s)
  {
    if s == [] then 0 else ParseDigits(s[..|s| - 1]) * 10 + (s[|s| - 1] as int - '0' as int)
  }

  lemma {:induction false} ParseNatToString(n: nat)
    ensures ParseDigits(NatToString(n)) == n
    decreases n
  {
    var r := NatToString(n);
    if n >= 10 {
      ParseNatToString(n / 10);
      assert r[..|r| - 1] == NatToString(n / 10);
    }
  }

  /** Different integers print as different decimal strings. */
  lemma NatToStringInjective(m: nat, n: nat)
    requires NatToString(m) == NatToString(n)
    ensures m == n
  {
    ParseNatToString(m);
    ParseNatToString(n);
  }

  /** The number of decimal digits at the end of `s`. */
  function TrailingDigits(s: string): (k: nat)
    ensures k <= |s|
    ensures AllDigits(s[|s| - k..])
  {
    if s == [] || !IsDigit(s[|s| - 1]) then 0
    else
      var k' := TrailingDigits(s[..|s| - 1]);
      assert s[|s| - (k' + 1)..] == s[..|s| - 1][|s| - 1 - k'..] + [s[|s| - 1]];
      k' + 1
  }

  /** Digits appended after a non-digit are exactly the trailing digit run. */
  lemma {:induction false} TrailingDigitsAfterNonDigit(x: string, d: string)
    requires |x| > 0 && !IsDigit(x[|x| - 1])
    requires AllDigits(d)
    ensures TrailingDigits(x + d) == |d|
    decreases |d|
  {
    if d == [] {
      assert x + d == x;
    } else {
      var s := x + d;
      assert s[..|s| - 1] == x + d[..|d| - 1];
      TrailingDigitsAfterNonDigit(x, d[..|d| - 1]);
    }
  }
}
