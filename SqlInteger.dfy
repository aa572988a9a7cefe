/**
 * The SQL parser's integer-literal node (`OInteger`): it classifies the literal text as hexadecimal,
 * octal or decimal, strips the hexadecimal prefix and an `L`/`l` suffix, parses the digits as a
 * Java `long`, multiplies by the sign, and stores a Java `Integer` when the result fits in 32 bits
 * and no suffix was given, a `Long` otherwise.
 */
module SqlInteger {
  import opened Wrappers
  import opened JavaArith

  /** The boxed value the node stores: `Integer` 5 and `Long` 5 are different values. */
  datatype Number = Integer(i: Int32) | Long(l: Int64)

  function Value(n: Number): Int64
  {
    match n
    case Integer(i) => i
    case Long(l) => l
  }

  /** `Long.parseLong` threw `NumberFormatException` on this text. */
  datatype ParseError = NumberFormat(text: string)

  // ---------------------------------------------------------------------------------------------
  // Digits

  /** The digit a character stands for in any radix up to 36 (`Character.digit` on ASCII). */
  function DigitOf(c: char): Option<nat>
  {
    if '0' <= c <= '9' then Some(c as int - '0' as int)
    else if 'a' <= c <= 'z' then Some(c as int - 'a' as int + 10)
    else if 'A' <= c <= 'Z' then Some(c as int - 'A' as int + 10)
    else None
  }

  predicate IsDigit(c: char, radix: nat)
  {
    DigitOf(c).Some? && DigitOf(c).value < radix
  }

  predicate AllDigits(s: string, radix: nat)
  {
    forall i :: 0 <= i < |s| ==> IsDigit(s[i], radix)
  }

  /** The number a digit string denotes in `radix`, most significant digit first. */
  function DigitsValue(s: string, radix: nat): nat
    requires AllDigits(s, radix)
  {
    if s == [] then 0
    else DigitsValue(s[..|s| - 1], radix) * radix + DigitOf(s[|s| - 1]).value
  }

  /** A text without its leading sign, if it has one: the part `Long.parseLong` reads as digits. */
  function DigitPart(s: string): string
  {
    if |s| > 0 && (s[0] == '-' || s[0] == '+') then s[1..] else s
  }

  /** `Long.parseLong(s, radix)`: an optional sign, at least one digit of the radix, and a value
      within the range of `long`; anything else is a format error (`None`). */
  function ParseLong(s: string, radix: nat): (r: Option<Int64>)
    requires 2 <= radix <= 36
    ensures r.Some? ==> |DigitPart(s)| >= 1 && AllDigits(DigitPart(s), radix)
    ensures |s| == 0 ==> r.None?
    ensures |s| > 0 && AllDigits(s, radix) ==>
              r == if DigitsValue(s, radix) <= MaxLong then Some(DigitsValue(s, radix)) else None
    ensures |s| > 1 && s[0] == '-' && AllDigits(s[1..], radix) ==>
              r == if DigitsValue(s[1..], radix) <= -MinLong then Some(-(DigitsValue(s[1..], radix) as int)) else None
    ensures |s| > 0 && s[0] != '-' && s[0] != '+' && !IsDigit(s[0], radix) ==> r.None?
    ensures r.Some? && r.value < 0 ==> s[0] == '-'
  {
    if |s| == 0 then None
    else
      var start := if s[0] == '-' || s[0] == '+' then 1 else 0;
      var digits := s[start..];
      if |digits| == 0 || !AllDigits(digits, radix) then None
      else
        var magnitude: int := DigitsValue(digits, radix);
        var v := if s[0] == '-' then -magnitude else magnitude;
        if MinLong <= v <= MaxLong then Some(v) else None
  }

  // ---------------------------------------------------------------------------------------------
  // The literal parser

  /** The radix of a literal once one leading `-` is set aside. */
  function UnsignedRadix(t: string): nat
  {
    if |t| > 2 && t[0] == '0' && (t[1] == 'x' || t[1] == 'X') then 16
    else if |t| > 1 && t[0] == '0' then 8
    else 10
  }

  /** `radix`: 16 for `0x`/`0X` followed by at least one character, else 8 for a leading `0`
      followed by at least one character, else 10, after ignoring one leading `-`. */
  function Radix(text: string): (r: nat)
    ensures r == 8 || r == 10 || r == 16
  {
    var t := if |text| > 0 && text[0] == '-' then text[1..] else text;
    UnsignedRadix(t)
  }

  /** The leading `-` of a text, if it has one. */
  function SignPrefix(text: string): string
  {
    if |text| > 0 && text[0] == '-' then "-" else ""
  }

  /** `convertToJavaByRadix`: the hexadecimal prefix is dropped and a leading `-` kept; octal and
      decimal texts are left alone. The last character, where a suffix would stand, is kept. */
  function ConvertToJavaByRadix(text: string, radix: nat): (r: string)
    requires radix == Radix(text)
    ensures radix != 16 ==> r == text
    ensures radix == 16 ==>
      var s := SignPrefix(text);
      && |text| >= |s| + 3
      && text[|s|] == '0' && (text[|s| + 1] == 'x' || text[|s| + 1] == 'X')
      && r == s + text[|s| + 2..]
    ensures |text| > 0 ==> |r| > 0 && r[|r| - 1] == text[|text| - 1]
  {
    if radix == 16 then
      if text[0] == '-' then "-" + text[3..] else text[2..]
    else text
  }

  predicate HasLongSuffix(s: string)
  {
    |s| > 0 && (s[|s| - 1] == 'L' || s[|s| - 1] == 'l')
  }

  /** A text without its `L`/`l` suffix, if it has one. */
  function StripSuffix(s: string): string
  {
    if HasLongSuffix(s) then s[..|s| - 1] else s
  }

  /** `setValue(sign, text)`: the value the node takes, or the format error `Long.parseLong` throws.
      A success needs the converted text, without its suffix and sign, to be digits of the radix. */
  function ParseInteger(sign: Int32, text: string): (r: Result<Number, ParseError>)
    ensures r.Success? && HasLongSuffix(text) ==> r.value.Long?
    ensures r.Success? && !HasLongSuffix(text) ==> (r.value.Integer? <==> IsInt32(Value(r.value)))
    ensures r.Success? ==>
              var d := DigitPart(StripSuffix(ConvertToJavaByRadix(text, Radix(text))));
              |d| >= 1 && AllDigits(d, Radix(text))
  {
    var radix := Radix(text);
    var s := ConvertToJavaByRadix(text, radix);
    var suffixed := HasLongSuffix(s);
    var digits := StripSuffix(s);
    match ParseLong(digits, radix)
    case None => Failure(NumberFormat(digits))
    case Some(p) =>
      var v := Mul(p, sign);
      if suffixed then Success(Long(v))
      else if v > MaxInt || v < MinInt then Success(Long(v))
      else Success(Integer(v))
  }

  // ---------------------------------------------------------------------------------------------
  // Literals as the grammar writes them

  /** The text of a literal: an optional `-`, a radix prefix, the digits and an optional suffix. */
  function Literal(negative: bool, prefix: string, digits: string, suffix: string): string
  {
    (if negative then "-" else "") + prefix + digits + suffix
  }

  /** A well-formed literal: `0x`/`0X` and hexadecimal digits, `0` and octal digits, or decimal digits
      without a leading zero (the number 0 aside); then nothing, `L` or `l`. */
  ghost predicate WellFormed(prefix: string, digits: string, radix: nat, suffix: string)
  {
    && |digits| >= 1
    && AllDigits(digits, radix)
    && (suffix == "" || suffix == "L" || suffix == "l")
    && ((radix == 16 && (prefix == "0x" || prefix == "0X"))
        || (radix == 8 && prefix == "0")
        || (radix == 10 && prefix == "" && (digits[0] == '0' ==> |digits| == 1)))
  }

  /** Leading zeros do not change the value of a digit string. */
  lemma {:induction false} LeadingZero(s: string, radix: nat)
    requires radix >= 1 && AllDigits(s, radix)
    ensures AllDigits("0" + s, radix) && DigitsValue("0" + s, radix) == DigitsValue(s, radix)
  {
    assert AllDigits("0" + s, radix) by {
      forall i | 0 <= i < |"0" + s| ensures IsDigit(("0" + s)[i], radix) {
        if i > 0 { assert ("0" + s)[i] == s[i - 1]; }
      }
    }
    if s != [] {
      var init := s[..|s| - 1];
      assert AllDigits(init, radix) by {
        forall i | 0 <= i < |init| ensures IsDigit(init[i], radix) { assert init[i] == s[i]; }
      }
      LeadingZero(init, radix);
      assert ("0" + s)[..|"0" + s| - 1] == "0" + init;
    }
  }

  /** `Long.parseLong` on an optional `-` and a non-empty digit string. */
  lemma ParseLongSigned(negative: bool, digits: string, radix: nat, s: string)
    requires 2 <= radix <= 36 && |digits| >= 1 && AllDigits(digits, radix)
    requires s == (if negative then "-" else "") + digits
    ensures var m := SignedValue(negative, digits, radix);
            ParseLong(s, radix) == if MinLong <= m <= MaxLong then Some(m) else None
  {
    assert digits[0] != '-' && digits[0] != '+' by { assert IsDigit(digits[0], radix); }
    if negative {
      assert s[0] == '-' && s[1..] == digits;
    } else {
      assert s == digits && s[0..] == digits;
    }
  }

  /** The Radix `setValue` detects for a well-formed literal: the literal's own, except that `0L`
      (with or without `-`) is read in radix 8, which gives it the same value. */
  lemma RadixOfWellFormed(negative: bool, prefix: string, digits: string, radix: nat, suffix: string)
    requires WellFormed(prefix, digits, radix, suffix)
    ensures var r := Radix(Literal(negative, prefix, digits, suffix));
            r == (if radix == 10 && digits == "0" && suffix != "" then 8 else radix)
  {
    var t := prefix + digits + suffix;
    var text := Literal(negative, prefix, digits, suffix);
    assert |t| >= 1 by { assert |digits| >= 1; }
    assert t[0] != '-' by {
      assert IsDigit(digits[0], radix);
      assert prefix != "" ==> t[0] == prefix[0];
      assert prefix == "" ==> t[0] == digits[0];
    }
    if negative {
      assert text[0] == '-' && text[1..] == t;
    } else {
      assert text == t;
    }
    UnsignedRadixOfWellFormed(prefix, digits, radix, suffix);
  }

  /** The same for the literal without its `-`. */
  lemma UnsignedRadixOfWellFormed(prefix: string, digits: string, radix: nat, suffix: string)
    requires WellFormed(prefix, digits, radix, suffix)
    ensures UnsignedRadix(prefix + digits + suffix)
              == (if radix == 10 && digits == "0" && suffix != "" then 8 else radix)
  {
    var t := prefix + digits + suffix;
    assert IsDigit(digits[0], radix);
    if prefix == "0x" || prefix == "0X" {
      assert |t| > 2 && t[0] == '0' && t[1] == prefix[1];
    } else if prefix == "0" {
      assert t[0] == '0' && t[1] == digits[0];
    } else {
      assert t == digits + suffix && t[0] == digits[0];
      if digits == "0" && suffix != "" {
        assert |t| == 2;
      } else if digits[0] == '0' {
        assert t == "0";
      }
    }
  }

  /** The digits a well-formed literal hands to `Long.parseLong`, without sign and suffix, in the
      radix `setValue` detected: the hexadecimal prefix is gone, the octal `0` stays. */
  function Core(prefix: string, digits: string, detected: nat): string
  {
    if detected == 16 then digits else prefix + digits
  }

  /** The converted text of a literal is its sign, its core digits and its suffix. */
  lemma ConvertLiteral(negative: bool, prefix: string, digits: string, suffix: string, detected: nat)
    requires detected == Radix(Literal(negative, prefix, digits, suffix))
    requires detected == 16 ==> prefix == "0x" || prefix == "0X"
    ensures ConvertToJavaByRadix(Literal(negative, prefix, digits, suffix), detected)
              == (if negative then "-" else "") + Core(prefix, digits, detected) + suffix
  {
    var text := Literal(negative, prefix, digits, suffix);
    var sgn := if negative then "-" else "";
    if detected == 16 {
      assert text == sgn + prefix + (digits + suffix);
      HexSlices(negative, prefix, digits + suffix);
    } else {
      assert text == sgn + (prefix + digits) + suffix;
    }
  }

  /** Where the sign, the hexadecimal prefix and the rest of a hexadecimal literal stand. */
  lemma HexSlices(negative: bool, prefix: string, rest: string)
    requires prefix == "0x" || prefix == "0X"
    ensures var text := (if negative then "-" else "") + prefix + rest;
            && |text| > 0 && (text[0] == '-' <==> negative)
            && (negative ==> text[3..] == rest)
            && (!negative ==> text[2..] == rest)
  {
    var text := (if negative then "-" else "") + prefix + rest;
    if negative {
      assert text == "-" + (prefix + rest);
      assert text[1..] == prefix + rest;
    } else {
      assert text == prefix + rest;
    }
  }

  /** The core digits of a well-formed literal are digits of the detected radix. */
  lemma CoreDigits(prefix: string, digits: string, radix: nat, suffix: string, detected: nat)
    requires WellFormed(prefix, digits, radix, suffix)
    requires detected == (if radix == 10 && digits == "0" && suffix != "" then 8 else radix)
    ensures |Core(prefix, digits, detected)| >= 1 && AllDigits(Core(prefix, digits, detected), detected)
  {
    if detected == 8 && prefix == "0" {
      LeadingZero(digits, 8);
    } else if detected == 8 {
      ZeroDigit(8);
    }
  }

  /** The core digits of a well-formed literal have the literal's value in the detected radix. */
  lemma CoreValue(prefix: string, digits: string, radix: nat, suffix: string, detected: nat)
    requires WellFormed(prefix, digits, radix, suffix)
    requires detected == (if radix == 10 && digits == "0" && suffix != "" then 8 else radix)
    ensures var core := Core(prefix, digits, detected);
            && AllDigits(core, detected)
            && DigitsValue(core, detected) == DigitsValue(digits, radix)
  {
    if detected == 8 && prefix == "0" {
      LeadingZero(digits, 8);
    } else if detected == 8 {
      assert digits == "0" && radix == 10;
      ZeroDigit(10);
      ZeroDigit(8);
    } else {
      assert Core(prefix, digits, detected) == digits;
    }
  }

  /** The single digit `0` is the number 0 in any radix. */
  lemma ZeroDigit(radix: nat)
    requires radix >= 1
    ensures AllDigits("0", radix) && DigitsValue("0", radix) == 0
  {
    assert DigitOf('0') == Some(0);
    assert "0"[..0] == [];
  }

  /** The converted text of a well-formed literal ends in a suffix exactly when the literal has one. */
  lemma SuffixWellFormed(sgn: string, core: string, radix: nat, suffix: string)
    requires |core| >= 1 && AllDigits(core, radix) && radix <= 16
    requires suffix == "" || suffix == "L" || suffix == "l"
    ensures var s := sgn + core + suffix;
            && (HasLongSuffix(s) <==> suffix != "")
            && (suffix != "" ==> s[..|s| - 1] == sgn + core)
  {
    var s := sgn + core + suffix;
    if suffix == "" {
      assert s[|s| - 1] == core[|core| - 1];
      assert IsDigit(core[|core| - 1], radix);
    } else {
      assert s[..|s| - 1] == sgn + core;
    }
  }

  /** The signed value of a literal's digits. */
  function SignedValue(negative: bool, digits: string, radix: nat): int
    requires AllDigits(digits, radix)
  {
    var m: int := DigitsValue(digits, radix);
    if negative then -m else m
  }

  /** A well-formed literal parses to sign × the value of its digits in its radix exactly when that
      value (with the literal's own `-`) fits in a `long`; the result is a `Long` when the literal has
      a suffix or the product does not fit in an `int`, and an `Integer` otherwise. */
  lemma ParseWellFormed(sign: Int32, negative: bool, prefix: string, digits: string, radix: nat, suffix: string)
    requires WellFormed(prefix, digits, radix, suffix)
    ensures var m := SignedValue(negative, digits, radix);
            var r := ParseInteger(sign, Literal(negative, prefix, digits, suffix));
            && (r.Success? <==> MinLong <= m <= MaxLong)
            && (r.Success? ==> Value(r.value) == Wrap64(m * sign))
            && (r.Success? ==> (r.value.Long? <==> suffix != "" || !IsInt32(Wrap64(m * sign))))
  {
    var text, R, core, conv, body := ConvertWellFormed(negative, prefix, digits, radix, suffix);
    assert SignedValue(negative, core, R) == SignedValue(negative, digits, radix) by {
      CoreValue(prefix, digits, radix, suffix, R);
    }
    ParseLongSigned(negative, core, R, body);
    ParseIntegerOf(sign, text, R, conv, suffix != "", body, SignedValue(negative, digits, radix));
  }

  /** What `setValue` hands to `Long.parseLong` for a well-formed literal: the literal's `-` and its
      core digits in the detected radix, without the suffix, which it recognises. */
  lemma ConvertWellFormed(negative: bool, prefix: string, digits: string, radix: nat, suffix: string)
    returns (text: string, R: nat, core: string, conv: string, body: string)
    requires WellFormed(prefix, digits, radix, suffix)
    ensures text == Literal(negative, prefix, digits, suffix)
    ensures R == Radix(text)
    ensures R == (if radix == 10 && digits == "0" && suffix != "" then 8 else radix) && 2 <= R <= 36
    ensures core == Core(prefix, digits, R) && |core| >= 1 && AllDigits(core, R)
    ensures conv == ConvertToJavaByRadix(text, R)
    ensures HasLongSuffix(conv) <==> suffix != ""
    ensures body == (if suffix != "" then conv[..|conv| - 1] else conv)
    ensures body == (if negative then "-" else "") + core
  {
    var sgn := if negative then "-" else "";
    text := Literal(negative, prefix, digits, suffix);
    R := Radix(text);
    RadixOfWellFormed(negative, prefix, digits, radix, suffix);
    core := Core(prefix, digits, R);
    CoreDigits(prefix, digits, radix, suffix, R);
    conv := ConvertToJavaByRadix(text, R);
    ConvertLiteral(negative, prefix, digits, suffix, R);
    SuffixWellFormed(sgn, core, R, suffix);
    body := if suffix != "" then conv[..|conv| - 1] else conv;
  }

  /** `ParseInteger` once it is known whether the converted text has a suffix and what
      `Long.parseLong` makes of the rest. */
  lemma ParseIntegerOf(sign: Int32, text: string, R: nat, conv: string, suffixed: bool, body: string, m: int)
    requires R == Radix(text) && conv == ConvertToJavaByRadix(text, R)
    requires HasLongSuffix(conv) == suffixed
    requires body == (if suffixed then conv[..|conv| - 1] else conv)
    requires ParseLong(body, R) == if MinLong <= m <= MaxLong then Some(m) else None
    ensures var r := ParseInteger(sign, text);
            && (r.Success? <==> MinLong <= m <= MaxLong)
            && (r.Success? ==> Value(r.value) == Wrap64(m * sign))
            && (r.Success? ==> (r.value.Long? <==> suffixed || !IsInt32(Wrap64(m * sign))))
  {
  }

  // ---------------------------------------------------------------------------------------------
  // Decimal text (`"" + value`, as `toString` appends it)

  /** The character of a digit below 36, lower-case for letters. */
  function DigitChar(d: nat): (c: char)
    requires d < 36
    ensures DigitOf(c) == Some(d)
  {
    if d < 10 then ('0' as int + d) as char else ('a' as int + d - 10) as char
  }

  /** The decimal digits of `n`, most significant first, without leading zeros. */
  function NatToDigits(n: nat): string
    decreases n
  {
    if n < 10 then [DigitChar(n)] else NatToDigits(n / 10) + [DigitChar(n % 10)]
  }

  /** Appending a digit multiplies the value by the radix and adds the digit. */
  lemma AppendDigit(init: string, c: char, radix: nat)
    requires AllDigits(init, radix) && IsDigit(c, radix)
    ensures AllDigits(init + [c], radix)
    ensures DigitsValue(init + [c], radix) == DigitsValue(init, radix) * radix + DigitOf(c).value
  {
    var s := init + [c];
    assert AllDigits(s, radix) by {
      forall i | 0 <= i < |s| ensures IsDigit(s[i], radix) {
        if i < |init| { assert s[i] == init[i]; }
      }
    }
    assert s[..|s| - 1] == init;
  }

  /** The digits of `n` read back give `n`, and start with `0` only for 0 itself. */
  lemma {:induction false} NatToDigitsValue(n: nat)
    ensures |NatToDigits(n)| >= 1 && AllDigits(NatToDigits(n), 10)
    ensures DigitsValue(NatToDigits(n), 10) == n
    ensures NatToDigits(n)[0] == '0' ==> n == 0 && |NatToDigits(n)| == 1
    decreases n
  {
    if n < 10 {
      SingleDigit(n);
    } else {
      NatToDigitsValue(n / 10);
      DigitsStep(NatToDigits(n / 10), n / 10, n % 10);
    }
  }

  /** A number below ten is written with one digit. */
  lemma SingleDigit(n: nat)
    requires n < 10
    ensures var s := NatToDigits(n);
            && |s| == 1 && AllDigits(s, 10) && DigitsValue(s, 10) == n
            && (s[0] == '0' ==> n == 0)
  {
    var c := DigitChar(n);
    AppendDigit([], c, 10);
    assert NatToDigits(n) == [] + [c];
  }

  /** Appending the last digit `d` to the digits of a positive `q` gives the digits of `10 q + d`. */
  lemma DigitsStep(init: string, q: nat, d: nat)
    requires q >= 1 && d < 10
    requires |init| >= 1 && AllDigits(init, 10) && DigitsValue(init, 10) == q && init[0] != '0'
    ensures var s := init + [DigitChar(d)];
            && |s| >= 1 && AllDigits(s, 10) && DigitsValue(s, 10) == q * 10 + d && s[0] != '0'
  {
    AppendDigit(init, DigitChar(d), 10);
  }

  /** Java's decimal text of an integer. */
  function DecimalText(x: int): string
  {
    if x < 0 then "-" + NatToDigits(-x) else NatToDigits(x)
  }

  /** What `toString` appends for the node's value: `null`, or the number in decimal. */
  function NumberText(value: Option<Number>): string
  {
    match value
    case None => "null"
    case Some(n) => DecimalText(Value(n))
  }

  /** The `Integer` Java would have chosen for the same number, when it fits. */
  function Narrow(n: Number): Number
  {
    if IsInt32(Value(n)) then Integer(Value(n)) else Long(Value(n))
  }

  /** Parsing back the decimal text of a value gives the same number, but an `Integer` whenever it
      fits in 32 bits: a `Long` literal written without its suffix does not stay a `Long`. */
  lemma TextRoundTrip(n: Number)
    ensures ParseInteger(1, DecimalText(Value(n))) == Success(Narrow(n))
  {
    var x := Value(n);
    DecimalParse(1, x);
    assert Wrap64(x * 1) == x;
  }

  /** A sign of -1 negates the decimal text of a non-negative `long`; the result is narrowed the
      same way, so `2147483648` alone is a `Long` but with a negative sign the `Integer` -2147483648. */
  lemma NegatedTextRoundTrip(x: Int64)
    requires x >= 0
    ensures ParseInteger(-1, DecimalText(x)) == Success(Narrow(Long(-x)))
  {
    DecimalParse(-1, x);
    assert Wrap64(x * -1) == -x by { assert x * -1 == -x; }
  }

  /** The decimal text of a `long`, parsed with a sign, is the wrapped product, narrowed. */
  lemma DecimalParse(sign: Int32, x: Int64)
    ensures var r := ParseInteger(sign, DecimalText(x));
            && r.Success?
            && r.value == Narrow(Long(Wrap64(x * sign)))
  {
    var digits := NatToDigits(if x < 0 then -(x as int) else x);
    DecimalLiteral(x, digits);
    DecimalTextLiteral(x, digits);
    ParseWellFormed(sign, x < 0, "", digits, 10, "");
  }

  /** The decimal digits of a number's magnitude form a well-formed decimal literal with the
      number's value. */
  lemma DecimalLiteral(x: int, digits: string)
    requires digits == NatToDigits(if x < 0 then -x else x)
    ensures WellFormed("", digits, 10, "")
    ensures SignedValue(x < 0, digits, 10) == x
  {
    var mag: nat := if x < 0 then -x else x;
    NatToDigitsValue(mag);
  }

  /** The decimal text of a number is the literal made of its sign and its digits. */
  lemma DecimalTextLiteral(x: int, digits: string)
    requires digits == NatToDigits(if x < 0 then -x else x)
    ensures DecimalText(x) == Literal(x < 0, "", digits, "")
  {
    assert "" + digits + "" == digits;
  }

  /** The boundary of `int`: 2147483648 needs a `Long`, its negation does not. */
  lemma IntBoundaryExample()
    ensures ParseInteger(1, DecimalText(MaxInt + 1)) == Success(Long(MaxInt + 1))
    ensures ParseInteger(-1, DecimalText(MaxInt + 1)) == Success(Integer(MinInt))
  {
    TextRoundTrip(Long(MaxInt + 1));
    NegatedTextRoundTrip(MaxInt + 1);
  }

  /** `08` is read as octal and `8` is no octal digit. */
  lemma OctalWithDecimalDigit()
    ensures ParseInteger(1, "08").Failure?
  {
    assert Radix("08") == 8;
    assert ConvertToJavaByRadix("08", 8) == "08";
    assert !IsDigit('8', 8);
  }

  /** `0x` alone has no digit after the prefix, so it is read as octal, and `x` is no octal digit. */
  lemma HexPrefixAlone()
    ensures ParseInteger(1, "0x").Failure?
  {
    assert Radix("0x") == 8;
    assert ConvertToJavaByRadix("0x", 8) == "0x";
    assert !IsDigit('x', 8);
  }

  /** A leading `0` makes a literal octal. */
  lemma OctalExample()
    ensures ParseInteger(1, "010") == Success(Integer(8))
  {
    assert DigitsValue("1", 8) == 1 by { assert "1"[..0] == []; }
    assert DigitsValue("10", 8) == 8 by { assert "10"[..1] == "1"; }
    assert Literal(false, "0", "10", "") == "010";
    LiteralValue(1, false, "0", "10", 8, "", 8);
    assert Wrap64(8 * 1) == 8;
  }

  /** A hexadecimal literal; a `-` in the text and a negative sign cancel. */
  lemma NegatedHexExample()
    ensures ParseInteger(-1, "-0X1f") == Success(Integer(31))
  {
    assert DigitsValue("1", 16) == 1 by { assert "1"[..0] == []; }
    assert DigitsValue("1f", 16) == 31 by { assert "1f"[..1] == "1"; }
    assert Literal(true, "0X", "1f", "") == "-0X1f";
    LiteralValue(-1, true, "0X", "1f", 16, "", 31);
    assert Wrap64(-31 * -1) == 31;
  }

  /** A suffix keeps even a small value a `Long`. */
  lemma SuffixExample()
    ensures ParseInteger(1, "5L") == Success(Long(5))
  {
    assert DigitsValue("5", 10) == 5 by { assert "5"[..0] == []; }
    assert Literal(false, "", "5", "L") == "5L";
    LiteralValue(1, false, "", "5", 10, "L", 5);
    assert Wrap64(5 * 1) == 5;
  }

  /** `1a` is decimal, and `Long.parseLong` rejects the `a` after the first digit. */
  lemma TrailingLetterRejected()
    ensures ParseInteger(1, "1a") == Failure(NumberFormat("1a"))
  {

  }

  /** `ParseWellFormed` for a literal whose digits are known to have value `v`. */
  lemma LiteralValue(sign: Int32, negative: bool, prefix: string, digits: string, radix: nat, suffix: string, v: nat)
    requires WellFormed(prefix, digits, radix, suffix) && DigitsValue(digits, radix) == v
    requires v <= MaxLong
    ensures var m: int := if negative then -(v as int) else v;
            var r := ParseInteger(sign, Literal(negative, prefix, digits, suffix));
            && r.Success? && Value(r.value) == Wrap64(m * sign)
            && (r.value.Long? <==> suffix != "" || !IsInt32(Wrap64(m * sign)))
  {
    var m: int := if negative then -(v as int) else v;
    assert SignedValue(negative, digits, radix) == m;
    assert MinLong <= m <= MaxLong;
    ParseWellFormed(sign, negative, prefix, digits, radix, suffix);
  }

  // ---------------------------------------------------------------------------------------------
  // Hashing (`Integer.hashCode`, `Long.hashCode`)

  function Pow2(n: nat): (p: nat)
    ensures p >= 1
  {
    if n == 0 then 1 else 2 * Pow2(n - 1)
  }

  lemma {:induction false} Pow2Add(a: nat, b: nat)
    ensures Pow2(a + b) == Pow2(a) * Pow2(b)
  {
    if a > 0 {
      Pow2Add(a - 1, b);
      assert Pow2(a + b) == 2 * Pow2(a - 1 + b);
    }
  }

  lemma Pow2Of32()
    ensures Pow2(32) == 0x1_0000_0000
  {
    Pow2Add(1, 1);
    assert Pow2(2) == 4;
    Pow2Add(2, 2);
    assert Pow2(4) == 16;
    Pow2Add(4, 4);
    assert Pow2(8) == 256;
    Pow2Add(8, 8);
    assert Pow2(16) == 0x1_0000;
    Pow2Add(16, 16);
  }

  /** The bitwise exclusive or of the low `n` bits of `a` and `b`. */
  function Xor(a: nat, b: nat, n: nat): nat
  {
    if n == 0 then 0
    else (if a % 2 != b % 2 then 1 else 0) + 2 * Xor(a / 2, b / 2, n - 1)
  }

  /** Exclusive or with zero keeps an `n`-bit number. */
  lemma {:induction false} XorZero(b: nat, n: nat)
    requires b < Pow2(n)
    ensures Xor(0, b, n) == b
  {
    if n > 0 {
      XorZero(b / 2, n - 1);
    }
  }

  /** Exclusive or with all ones complements an `n`-bit number. */
  lemma {:induction false} XorOnes(b: nat, n: nat)
    requires b < Pow2(n)
    ensures Xor(Pow2(n) - 1, b, n) == Pow2(n) - 1 - b
  {
    if n > 0 {
      assert (Pow2(n) - 1) / 2 == Pow2(n - 1) - 1;
      XorOnes(b / 2, n - 1);
    }
  }

  /** The two 32-bit halves of a `long` in the `int` range are all zeros or all ones above the low
      half, so their exclusive or is the low half itself or its complement. */
  lemma HashHalves(l: Int64)
    ensures var u: int := if l < 0 then l + TwoTo64 else l;
            var hi, lo := u / 0x1_0000_0000, u % 0x1_0000_0000;
            && (0 <= l <= MaxInt ==> Xor(hi, lo, 32) == l)
            && (MinInt <= l < 0 ==> Xor(hi, lo, 32) == -1 - l)
  {
    var u: int := if l < 0 then l + TwoTo64 else l;
    var hi, lo := u / 0x1_0000_0000, u % 0x1_0000_0000;
    Pow2Of32();
    if 0 <= l <= MaxInt {
      XorZero(lo, 32);
    }
    if MinInt <= l < 0 {
      assert hi == 0xFFFF_FFFF;
      XorOnes(lo, 32);
    }
  }

  /** `Long.hashCode`, `(int) (l ^ (l >>> 32))`: the exclusive or of the two 32-bit halves of the
      two's-complement bits, read as a signed `int`. A `long` in the `int` range hashes to itself
      when non-negative and to its complement `-1 - l` when negative. */
  function LongHash(l: Int64): (r: Int32)
    ensures 0 <= l <= MaxInt ==> r == l
    ensures MinInt <= l < 0 ==> r == -1 - l
  {
    HashHalves(l);
    var u: int := if l < 0 then l + TwoTo64 else l;
    var x := Xor(u / 0x1_0000_0000, u % 0x1_0000_0000, 32);
    assert x < 0x1_0000_0000 by { XorBound(u / 0x1_0000_0000, u % 0x1_0000_0000, 32); Pow2Of32(); }
    if x > MaxInt then x - 0x1_0000_0000 else x
  }

  /** An `n`-bit exclusive or has `n` bits. */
  lemma {:induction false} XorBound(a: nat, b: nat, n: nat)
    ensures Xor(a, b, n) < Pow2(n)
  {
    if n > 0 {
      XorBound(a / 2, b / 2, n - 1);
    }
  }

  /** `hashCode`: the value's own hash, or 0 for null. */
  function NumberHash(value: Option<Number>): (r: Int32)
    ensures value.None? ==> r == 0
    ensures value.Some? && value.value.Integer? ==> r == value.value.i
    ensures value.Some? && 0 <= Value(value.value) <= MaxInt ==> r == Value(value.value)
    ensures value.Some? && value.value.Long? && MinInt <= value.value.l < 0 ==> r == -1 - value.value.l
  {
    match value
    case None => 0
    case Some(Integer(i)) => i
    case Some(Long(l)) => LongHash(l)
  }

  // ---------------------------------------------------------------------------------------------
  // The node

  class OInteger {
    var value: Option<Number>

    constructor ()
      ensures value == None
    {
      value := None;
    }

    /** `setValue(sign, text)`: on success the parsed number is stored; on a format error the
        exception leaves the old value in place. */
    method SetValue(sign: Int32, text: string) returns (result: Result<(), ParseError>)
      modifies this
      ensures ParseInteger(sign, text).Success? ==>
        result == Success(()) && value == Some(ParseInteger(sign, text).value)
      ensures ParseInteger(sign, text).Failure? ==>
        result == Failure(ParseInteger(sign, text).error) && value == old(value)
    {
      var parsed := ParseInteger(sign, text);
      match parsed
      case Success(n) =>
        value := Some(n);
        result := Success(());
      case Failure(e) =>
        result := Failure(e);
    }

    /** `setValue(Number)`. */
    method SetNumber(n: Option<Number>)
      modifies this
      ensures value == n
    {
      value := n;
    }

    /** `equals`: the same node, or another node holding an equal value (null equal to null). */
    predicate Equals(o: OInteger?)
      reads this, o
      ensures Equals(o) <==> o != null && value == o.value
      ensures Equals(o) ==> NumberHash(value) == NumberHash(o.value)
    {
      o != null && (this == o || value == o.value)
    }

    function HashCode(): (h: Int32)
      reads this
      ensures value.None? ==> h == 0
      ensures value.Some? && 0 <= Value(value.value) <= MaxInt ==> h == Value(value.value)
    {
      NumberHash(value)
    }

    /** `toString(params, builder)`: the builder extended with the value's text, which is `null` for
        no value and otherwise parses back, with sign 1, to the value (narrowed). */
    function ToString(builder: string): (r: string)
      reads this
      ensures |r| >= |builder| && r[..|builder|] == builder
      ensures value.None? ==> r[|builder|..] == "null"
      ensures value.Some? ==> ParseInteger(1, r[|builder|..]) == Success(Narrow(value.value))
    {
      var r := builder + NumberText(value);
      assert r[|builder|..] == NumberText(value);
      if value.Some? then TextRoundTrip(value.value); r else r
    }

    /** `copy`: a new node with the same value, equal to this one both ways. */
    method Copy() returns (c: OInteger)
      ensures fresh(c) && c.value == value
      ensures c.Equals(this) && this.Equals(c)
    {
      c := new OInteger();
      c.value := value;
    }
  }

  /** `equals` is an equivalence, and `hashCode` agrees with it. */
  lemma EqualsIsEquivalence(a: OInteger, b: OInteger, c: OInteger)
    ensures a.Equals(a)
    ensures a.Equals(b) ==> b.Equals(a)
    ensures a.Equals(b) && b.Equals(c) ==> a.Equals(c)
    ensures a.Equals(b) ==> a.HashCode() == b.HashCode()
  {
  }

}
