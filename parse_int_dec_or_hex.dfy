/** parseIntDecOrHex: a configuration value that may be a number, absent,
    or a string in decimal or "0x"-prefixed hexadecimal. The JavaScript
    library steps it relies on (String.prototype.trim, toLowerCase,
    startsWith and the global parseInt) are modelled for the strings and
    radixes this function reaches. */
module ParseIntDecOrHex {
  import opened Numerals

  /** The JavaScript values the function distinguishes. Numbers are
      modelled as integers; NaN is parseInt's result when there are no digits. */
  datatype JsValue = Null | Undefined | Number(n: int) | NaN | Str(s: string)

  /** ECMAScript WhiteSpace and LineTerminator code points, which trim removes. */
  predicate IsJsSpace(c: char) {
    var u := c as int;
    u == 0x09 || u == 0x0B || u == 0x0C || u == 0x20 || u == 0xA0 || u == 0xFEFF
    || u == 0x1680 || 0x2000 <= u <= 0x200A || u == 0x202F || u == 0x205F || u == 0x3000
    || u == 0x0A || u == 0x0D || u == 0x2028 || u == 0x2029
  }

  predicate AllSpace(s: string) {
    forall i :: 0 <= i < |s| ==> IsJsSpace(s[i])
  }

  function TrimStart(s: string): (r: string)
    ensures r == [] || !IsJsSpace(r[0])
    decreases |s|
  {
    if s != [] && IsJsSpace(s[0]) then TrimStart(s[1..]) else s
  }

  function TrimEnd(s: string): (r: string)
    ensures r == [] || !IsJsSpace(r[|r| - 1])
    decreases |s|
  {
    if s != [] && IsJsSpace(s[|s| - 1]) then TrimEnd(s[..|s| - 1]) else s
  }

  /** String.prototype.trim. */
  function Trim(s: string): string {
    TrimEnd(TrimStart(s))
  }

  /** toLowerCase on the characters that matter here: only the ASCII
      letters have lowercase forms among the digits, 'x' and white space. */
  function LowerChar(c: char): (r: char)
    ensures IsJsSpace(c) <==> IsJsSpace(r)
  {
    if 'A' <= c <= 'Z' then (c as int - 'A' as int + 'a' as int) as char else c
  }

  function ToLower(s: string): (r: string)
    ensures |r| == |s| && forall i :: 0 <= i < |s| ==> r[i] == LowerChar(s[i])
    decreases |s|
  {
    if s == [] then [] else [LowerChar(s[0])] + ToLower(s[1..])
  }

  /** The digits of the given base (10 or 16) at the start of s. */
  function DigitPrefix(s: string, base: nat): (r: string)
    ensures |r| <= |s| && r == s[..|r|]
    ensures forall i :: 0 <= i < |r| ==> IsDigitOf(r[i], base) && IsHexDigit(r[i])
    ensures |r| < |s| ==> !IsDigitOf(s[|r|], base)
    decreases |s|
  {
    if s != [] && IsDigitOf(s[0], base) then [s[0]] + DigitPrefix(s[1..], base) else []
  }

  predicate StartsWithHexPrefix(s: string) {
    |s| >= 2 && s[0] == '0' && (s[1] == 'x' || s[1] == 'X')
  }

  /** The value of the digits at the start of s, or NaN when there are none. */
  function LeadingDigits(s: string, base: nat): (r: JsValue)
    ensures r.Number? || r.NaN?
    ensures r.Number? ==> r.n >= 0
  {
    var digits := DigitPrefix(s, base);
    if digits == [] then NaN else Number(DigitsValue(digits, base))
  }

  /** parseInt after the sign: a "0x" prefix is taken when the radix is 16
      or absent (0), and then means base 16. */
  function ParseUnsigned(s: string, radix: nat): (r: JsValue)
    requires radix == 0 || radix == 16
    ensures r.Number? || r.NaN?
  {
    if StartsWithHexPrefix(s) then LeadingDigits(s[2..], 16)
    else LeadingDigits(s, if radix == 16 then 16 else 10)
  }

  function Negate(r: JsValue): JsValue {
    if r.Number? then Number(-r.n) else r
  }

  /** The global parseInt, for radix 16 or no radix (0): leading white
      space is skipped, then an optional sign, then the number. */
  function ParseInt(input: string, radix: nat): (r: JsValue)
    requires radix == 0 || radix == 16
    ensures r.Number? || r.NaN?
  {
    var s := TrimStart(input);
    if s != [] && s[0] == '-' then Negate(ParseUnsigned(s[1..], radix))
    else if s != [] && s[0] == '+' then ParseUnsigned(s[1..], radix)
    else ParseUnsigned(s, radix)
  }

  /** The trimmed, lowercased string: base 16 after "0x", else parseInt's default. */
  function ParseLowered(svalue: string): (r: JsValue)
    ensures r.Number? || r.NaN?
  {
    if |svalue| >= 2 && svalue[..2] == "0x" then ParseInt(svalue, 16) else ParseInt(svalue, 0)
  }

  /** parseIntDecOrHex. */
  function ParseIntDecOrHex(value: JsValue): (r: JsValue)
    ensures value.Null? || value.Undefined? || value.Number? ==> r == value
    ensures value.NaN? ==> r == value
    ensures value.Str? ==> r.Number? || r.NaN?
  {
    match value
    case Null => value
    case Undefined => value
    case Number(_) => value
    case NaN => value
    case Str(s) => ParseLowered(ToLower(Trim(s)))
  }

  // ---------------------------------------------------------------------
  // Properties

  /** A run of digits followed by something else reads as the run alone. */
  lemma {:induction false} DigitPrefixOfDigits(d: string, t: string, base: nat)
    requires forall i :: 0 <= i < |d| ==> IsDigitOf(d[i], base)
    requires t == [] || !IsDigitOf(t[0], base)
    ensures DigitPrefix(d + t, base) == d
    decreases |d|
  {
    if d == [] {
      assert d + t == t;
    } else {
      assert (d + t)[1..] == d[1..] + t;
      DigitPrefixOfDigits(d[1..], t, base);
    }
  }

  /** No digit is white space, '-', '+' or 'x'. */
  lemma DigitFacts(c: char)
    requires IsHexDigit(c)
    ensures !IsJsSpace(c) && c != '-' && c != '+' && c != 'x' && c != 'X'
  {
  }

  /** A string of digits of the base reads as its value. */
  lemma DigitsRead(s: string, base: nat)
    requires s != [] && forall i :: 0 <= i < |s| ==> IsDigitOf(s[i], base) && IsHexDigit(s[i])
    ensures LeadingDigits(s, base) == Number(DigitsValue(s, base))
  {
    DigitPrefixOfDigits(s, [], base);
    assert s + [] == s;
  }

  /** A digit string is its own trim. */
  lemma TrimDigits(s: string)
    requires s != [] && forall i :: 0 <= i < |s| ==> IsHexDigit(s[i])
    ensures TrimStart(s) == s && Trim(s) == s
  {
    DigitFacts(s[0]);
    DigitFacts(s[|s| - 1]);
  }

  /** A lowered string starting "0x" is read in base 16 after the prefix. */
  lemma LoweredHex(s: string)
    requires |s| >= 2 && s[0] == '0' && s[1] == 'x'
    ensures ParseLowered(s) == LeadingDigits(s[2..], 16)
  {
    assert s[..2] == "0x";
    assert !IsJsSpace(s[0]);
    assert TrimStart(s) == s;
  }

  /** A lowered string starting with a decimal digit and not "0x" is read in base 10. */
  lemma LoweredDecimal(s: string)
    requires s != [] && IsDecDigit(s[0]) && !StartsWithHexPrefix(s)
    ensures ParseLowered(s) == LeadingDigits(s, 10)
  {
    DigitFacts(s[0]);
    assert TrimStart(s) == s;
    if |s| >= 2 {
      assert s[..2] != "0x" by {
        assert s[..2][0] == s[0] && s[..2][1] == s[1];
      }
    }
  }

  /** A lowered string starting with '-' is parseInt's negated reading of the rest. */
  lemma LoweredNegative(s: string)
    requires s != [] && s[0] == '-'
    ensures ParseLowered(s) == Negate(ParseUnsigned(s[1..], 0))
  {
    assert !IsJsSpace(s[0]);
    assert TrimStart(s) == s;
    if |s| >= 2 {
      assert s[..2] != "0x" by {
        assert s[..2][0] == s[0];
      }
    }
  }

  /** Every decimal rendering of a natural number reads back as n, with
      numbers as unbounded integers. (JavaScript's String(n) and parseInt
      agree with this only below 2^53.) */
  lemma DecimalRoundTrip(n: nat)
    ensures ParseIntDecOrHex(Str(DecimalString(n))) == Number(n)
  {
    var s := DecimalString(n);
    RenderRoundTrip(n, 10);
    TrimDigits(s);
    LowerDigits(s);
    if |s| >= 2 {
      DigitFacts(s[1]);
    }
    LoweredDecimal(s);
    DigitsRead(s, 10);
    ReadsAs(s, s);
  }

  /** "0x" and lowercase hex digits are already trimmed and lowercase. */
  lemma HexNormal(h: string)
    requires h != [] && forall i :: 0 <= i < |h| ==> IsHexDigit(h[i]) && !('A' <= h[i] <= 'Z')
    ensures ToLower(Trim("0x" + h)) == "0x" + h
  {
    var s := "0x" + h;
    DigitFacts(h[|h| - 1]);
    assert s[|s| - 1] == h[|h| - 1];
    assert forall i :: 2 <= i < |s| ==> s[i] == h[i - 2];
    AlreadyNormal(s);
  }

  /** Every "0x" + n.toString(16) reads back as n, with numbers as
      unbounded integers, as for DecimalRoundTrip. */
  lemma HexRoundTrip(n: nat)
    ensures ParseIntDecOrHex(Str("0x" + HexString(n))) == Number(n)
  {
    var h := HexString(n);
    var s := "0x" + h;
    RenderRoundTrip(n, 16);
    HexNormal(h);
    LoweredHex(s);
    assert s[2..] == h;
    DigitsRead(h, 16);
    ReadsAs(s, s);
  }

  /** Lowering changes no digit string that is already lowercase. */
  lemma LowerDigits(s: string)
    requires forall i :: 0 <= i < |s| ==> IsHexDigit(s[i]) && !('A' <= s[i] <= 'Z')
    ensures ToLower(s) == s
  {
  }

  /** The value depends only on the trimmed, lowercased string. */
  lemma ReadsAs(s: string, lowered: string)
    requires ToLower(Trim(s)) == lowered
    ensures ParseIntDecOrHex(Str(s)) == ParseLowered(lowered)
  {
  }

  /** A string with no white space at either end and no capital letter is its own normal form. */
  lemma AlreadyNormal(s: string)
    requires s != [] && !IsJsSpace(s[0]) && !IsJsSpace(s[|s| - 1])
    requires forall i :: 0 <= i < |s| ==> !('A' <= s[i] <= 'Z')
    ensures Trim(s) == s && ToLower(s) == s
  {
    assert TrimStart(s) == s;
    assert TrimEnd(s) == s;
  }

  lemma NormalisedUpper()
    ensures ToLower(Trim("0X41")) == "0x41"
  {
    assert TrimStart("0X41") == "0X41";
    assert TrimEnd("0X41") == "0X41";
  }

  lemma NormalisedPadded()
    ensures Trim(" 0x41 ") == "0x41"
  {
    assert TrimStart(" 0x41 ") == "0x41 ";
    assert TrimEnd("0x41 ") == "0x41";
  }

  lemma Value41()
    ensures DigitsValue("41", 16) == 65 && DigitsValue("12", 10) == 12
    ensures DigitsValue("123", 10) == 123 && DigitsValue("10", 16) == 16
  {
    assert "41"[..1] == "4";
    assert "12"[..1] == "1";
    assert "123"[..2] == "12";
    assert "10"[..1] == "1";
  }

  lemma Lowered41()
    ensures ParseLowered("0x41") == Number(65)
  {
    LoweredHex("0x41");
    assert "0x41"[2..] == "41";
    DigitsRead("41", 16);
    Value41();
  }

  lemma Lowered123abc()
    ensures ParseLowered("123abc") == Number(123)
  {
    LoweredDigitsThen("123", "abc");
    assert "123" + "abc" == "123abc";
    Value41();
  }

  /** Decimal digits followed by something that is not a digit read as the digits. */
  lemma LoweredDigitsThen(d: string, t: string)
    requires d != [] && forall i :: 0 <= i < |d| ==> IsDigitOf(d[i], 10) && IsHexDigit(d[i])
    requires d[0] != '0' && (t == [] || !IsDigitOf(t[0], 10))
    ensures ParseLowered(d + t) == Number(DigitsValue(d, 10))
  {
    var s := d + t;
    assert s[0] == d[0];
    LoweredDecimal(s);
    DigitPrefixOfDigits(d, t, 10);
  }

  lemma LoweredAbc()
    ensures ParseLowered("abc") == NaN
  {
    assert TrimStart("abc") == "abc";
    assert "abc"[..2] != "0x";
    assert DigitPrefix("abc", 10) == [];
  }

  lemma LoweredBarePrefix()
    ensures ParseLowered("0x") == NaN
  {
    LoweredHex("0x");
    assert "0x"[2..] == [];
  }

  lemma LoweredMinus12()
    ensures ParseLowered("-12") == Number(-12)
  {
    LoweredNegative("-12");
    assert "-12"[1..] == "12";
    assert !StartsWithHexPrefix("12");
    DigitsRead("12", 10);
    Value41();
  }

  lemma LoweredMinusHex()
    ensures ParseLowered("-0x10") == Number(-16)
  {
    LoweredNegative("-0x10");
    assert "-0x10"[1..] == "0x10";
    assert StartsWithHexPrefix("0x10");
    assert "0x10"[2..] == "10";
    DigitsRead("10", 16);
    Value41();
  }

  /** The test vectors: "0x41", "0X41" and " 0x41 " are 65. */
  lemma HexExamples()
    ensures ParseIntDecOrHex(Str("0x41")) == Number(65)
    ensures ParseIntDecOrHex(Str("0X41")) == Number(65)
    ensures ParseIntDecOrHex(Str(" 0x41 ")) == Number(65)
  {
    AlreadyNormal("0x41");
    NormalisedUpper();
    NormalisedPadded();
    Lowered41();
    ReadsAs("0x41", "0x41");
    ReadsAs("0X41", "0x41");
    ReadsAs(" 0x41 ", "0x41");
  }

  /** "123abc" reads its leading digits. */
  lemma DecimalExample()
    ensures ParseIntDecOrHex(Str("123abc")) == Number(123)
  {
    AlreadyNormal("123abc");
    Lowered123abc();
    ReadsAs("123abc", "123abc");
  }

  /** "abc" has no digits. */
  lemma NoDigitExample()
    ensures ParseIntDecOrHex(Str("abc")) == NaN
  {
    AlreadyNormal("abc");
    LoweredAbc();
    ReadsAs("abc", "abc");
  }

  /** "0x" has a hexadecimal prefix and no digits after it. */
  lemma BarePrefixExample()
    ensures ParseIntDecOrHex(Str("0x")) == NaN
  {
    AlreadyNormal("0x");
    LoweredBarePrefix();
    ReadsAs("0x", "0x");
  }

  /** A sign is kept. */
  lemma NegativeDecimalExample()
    ensures ParseIntDecOrHex(Str("-12")) == Number(-12)
  {
    AlreadyNormal("-12");
    LoweredMinus12();
    ReadsAs("-12", "-12");
  }

  /** parseInt's own prefix rule still turns "-0x10" into -16. */
  lemma NegativeHexExample()
    ensures ParseIntDecOrHex(Str("-0x10")) == Number(-16)
  {
    AlreadyNormal("-0x10");
    LoweredMinusHex();
    ReadsAs("-0x10", "-0x10");
  }

  /** Leading and trailing white space never changes the result. */
  lemma {:induction false} TrimStartSpace(w: string, s: string)
    requires AllSpace(w)
    ensures TrimStart(w + s) == TrimStart(s)
    decreases |w|
  {
    if w == [] {
      assert w + s == s;
    } else {
      assert (w + s)[1..] == w[1..] + s;
      TrimStartSpace(w[1..], s);
    }
  }

  lemma {:induction false} TrimEndSpace(s: string, w: string)
    requires AllSpace(w)
    ensures TrimEnd(s + w) == TrimEnd(s)
    decreases |w|
  {
    if w == [] {
      assert s + w == s;
    } else {
      assert (s + w)[..|s + w| - 1] == s + w[..|w| - 1];
      TrimEndSpace(s, w[..|w| - 1]);
    }
  }

  /** Trailing white space passes through TrimStart unless everything is space. */
  lemma {:induction false} TrimStartThenSpace(s: string, w: string)
    requires AllSpace(w)
    ensures TrimEnd(TrimStart(s + w)) == TrimEnd(TrimStart(s))
    decreases |s|
  {
    if s == [] {
      assert s + w == w;
      assert w + [] == w;
      TrimStartSpace(w, []);
    } else if IsJsSpace(s[0]) {
      assert (s + w)[1..] == s[1..] + w;
      TrimStartThenSpace(s[1..], w);
    } else {
      TrimEndSpace(s, w);
    }
  }

  lemma Padding(w1: string, s: string, w2: string)
    requires AllSpace(w1) && AllSpace(w2)
    ensures ParseIntDecOrHex(Str(w1 + s + w2)) == ParseIntDecOrHex(Str(s))
  {
    assert w1 + s + w2 == w1 + (s + w2);
    TrimStartSpace(w1, s + w2);
    TrimStartThenSpace(s, w2);
    ReadsAs(w1 + s + w2, ToLower(Trim(s)));
    ReadsAs(s, ToLower(Trim(s)));
  }

  /** Lowering first never changes the result: toLowerCase is applied anyway. */
  lemma CaseInsensitive(s: string)
    ensures ParseIntDecOrHex(Str(ToLower(s))) == ParseIntDecOrHex(Str(s))
  {
    TrimLowerCommute(s);
    LowerIdempotent(Trim(s));
    ReadsAs(ToLower(s), ToLower(Trim(s)));
    ReadsAs(s, ToLower(Trim(s)));
  }

  lemma {:induction false} LowerIdempotent(s: string)
    ensures ToLower(ToLower(s)) == ToLower(s)
  {
  }

  lemma {:induction false} TrimStartLower(s: string)
    ensures TrimStart(ToLower(s)) == ToLower(TrimStart(s))
    decreases |s|
  {
    if s != [] {
      assert ToLower(s)[1..] == ToLower(s[1..]);
      TrimStartLower(s[1..]);
    }
  }

  lemma {:induction false} TrimEndLower(s: string)
    ensures TrimEnd(ToLower(s)) == ToLower(TrimEnd(s))
    decreases |s|
  {
    if s != [] {
      assert ToLower(s)[..|s| - 1] == ToLower(s[..|s| - 1]);
      TrimEndLower(s[..|s| - 1]);
    }
  }

  lemma TrimLowerCommute(s: string)
    ensures Trim(ToLower(s)) == ToLower(Trim(s))
  {
    TrimStartLower(s);
    TrimEndLower(TrimStart(s));
  }
}
