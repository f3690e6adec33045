/** Digit strings: the value of a run of decimal or hexadecimal digits
    (what parseInt accumulates) and the shortest lowercase rendering of a
    number in base 10 and base 16 (what JavaScript's String(n) and
    n.toString(16) produce for a non-negative integer). */
module Numerals {

  /** '0'-'9', 'a'-'f' and 'A'-'F' are digits up to base 16. */
  predicate IsHexDigit(c: char) {
    '0' <= c <= '9' || 'a' <= c <= 'f' || 'A' <= c <= 'F'
  }

  predicate IsDecDigit(c: char) {
    '0' <= c <= '9'
  }

  /** Whether c is a digit of the given base (10 or 16). */
  predicate IsDigitOf(c: char, base: nat) {
    if base == 16 then IsHexDigit(c) else IsDecDigit(c)
  }

  function DigitValue(c: char): (v: nat)
    requires IsHexDigit(c)
    ensures v < 16
    ensures IsDecDigit(c) <==> v < 10
  {
    if '0' <= c <= '9' then c as nat - '0' as nat
    else if 'a' <= c <= 'f' then c as nat - 'a' as nat + 10
    else c as nat - 'A' as nat + 10
  }

  /** The value of a digit string, most significant digit first. */
  function DigitsValue(s: string, base: nat): nat
    requires forall i :: 0 <= i < |s| ==> IsHexDigit(s[i])
    decreases |s|
  {
    if s == [] then 0 else DigitsValue(s[..|s| - 1], base) * base + DigitValue(s[|s| - 1])
  }

  /** The lowercase digit for a value below 16. */
  function DigitChar(d: nat): (c: char)
    requires d < 16
    ensures IsHexDigit(c) && DigitValue(c) == d
    ensures d < 10 ==> IsDecDigit(c)
    ensures !('A' <= c <= 'Z')
  {
    if d < 10 then ('0' as nat + d) as char else ('a' as nat + d - 10) as char
  }

  /** The shortest rendering of n in base 10 or 16, lowercase, as String(n) and n.toString(16). */
  function Render(n: nat, base: nat): (s: string)
    requires base == 10 || base == 16
    ensures |s| >= 1
    ensures forall i :: 0 <= i < |s| ==> IsDigitOf(s[i], base) && IsHexDigit(s[i]) && !('A' <= s[i] <= 'Z')
    decreases n
  {
    if n < base then [DigitChar(n)] else Render(n / base, base) + [DigitChar(n % base)]
  }

  /** The decimal form of n. */
  function DecimalString(n: nat): string {
    Render(n, 10)
  }

  /** The lowercase hexadecimal form of n. */
  function HexString(n: nat): string {
    Render(n, 16)
  }

  /** Reading back a rendering gives the number; the rendering has no
      leading zero unless it is "0". */
  lemma {:induction false} RenderRoundTrip(n: nat, base: nat)
    requires base == 10 || base == 16
    ensures DigitsValue(Render(n, base), base) == n
    ensures Render(n, base)[0] == '0' ==> n == 0
    decreases n
  {
    var s := Render(n, base);
    if n >= base {
      var q, r := n / base, n % base;
      RenderRoundTrip(q, base);
      assert s == Render(q, base) + [DigitChar(r)];
      assert s[..|s| - 1] == Render(q, base);
      assert n == q * base + r;
      assert s[0] == Render(q, base)[0];
    }
  }
}
