/**
 * The global `parseInt(string, radix)` of ECMAScript (section 19.2.5 of
 * ECMA-262, 2022 edition and later), on an exact integer result: skip leading
 * white space, read an optional sign, strip a `0x`/`0X` prefix when the radix
 * is 16 (or left to default), then read the longest run of digits of the
 * radix. No digits means NaN, modelled as `None`.
 */
module IntParsing {
  import opened Wrappers
  import opened Radix

  /** The WhiteSpace and LineTerminator code points that parseInt skips. */
  predicate IsWhitespace(c: char)
  {
    c == '\t' || c == '\n' || c == '\U{B}' || c == '\U{C}' || c == '\r' || c == ' '
    || c == '\U{A0}' || c == '\U{1680}' || ('\U{2000}' <= c <= '\U{200A}')
    || c == '\U{2028}' || c == '\U{2029}' || c == '\U{202F}' || c == '\U{205F}'
    || c == '\U{3000}' || c == '\U{FEFF}'
  }

  /** What is left of `s` after its leading white space. */
  function TrimStart(s: string): (t: string)
    ensures |t| <= |s| && t == s[|s| - |t|..]
    ensures forall i :: 0 <= i < |s| - |t| ==> IsWhitespace(s[i])
    ensures t == [] || !IsWhitespace(t[0])
  {
    if s != [] && IsWhitespace(s[0]) then TrimStart(s[1..]) else s
  }

  /** The longest prefix of `s` made of digits of `radix`. */
  function DigitPrefix(s: string, radix: int): (z: string)
    ensures |z| <= |s| && z == s[..|z|] && IsNumeral(z, radix)
    ensures |z| < |s| ==> !IsDigit(s[|z|], radix)
  {
    if s != [] && IsDigit(s[0], radix) then [s[0]] + DigitPrefix(s[1..], radix) else []
  }

  predicate HasHexPrefix(u: string)
  {
    |u| >= 2 && u[0] == '0' && (u[1] == 'x' || u[1] == 'X')
  }

  /** A hexadecimal numeral never opens with `0x`: `x` is no hexadecimal digit. */
  lemma HexNumeralHasNoPrefix(s: string)
    requires IsNumeral(s, 16)
    ensures !HasHexPrefix(s)
  {
    if |s| >= 2 {
      assert IsDigit(s[1], 16);
    }
  }

  /** Empty, or one `+` or `-`. */
  predicate IsSign(sign: string)
  {
    |sign| <= 1 && (sign != [] ==> sign[0] == '+' || sign[0] == '-')
  }

  predicate IsMinus(sign: string)
  {
    sign != [] && sign[0] == '-'
  }

  /** Empty, or `0x`/`0X` where the radix is 16. */
  predicate IsPrefix(prefix: string, radix: int)
  {
    prefix == [] || (radix == 16 && |prefix| == 2 && HasHexPrefix(prefix))
  }

  function ParseInt(s: string, radix: int): Option<int>
  {
    if radix != 0 && (radix < 2 || radix > 36) then None
    else ParseSigned(TrimStart(s), radix)
  }

  /** After the white space: an optional sign, then the magnitude. */
  function ParseSigned(t: string, radix: int): Option<int>
    requires radix == 0 || 2 <= radix <= 36
  {
    if t != [] && t[0] == '-' then Negate(ParseMagnitude(t[1..], radix))
    else if t != [] && t[0] == '+' then ParseMagnitude(t[1..], radix)
    else ParseMagnitude(t, radix)
  }

  /** The unsigned part: an optional `0x` (radix 16 or 0), then the longest run of digits. */
  function ParseMagnitude(u: string, radix: int): Option<int>
    requires radix == 0 || 2 <= radix <= 36
  {
    var hexPrefix := (radix == 0 || radix == 16) && HasHexPrefix(u);
    var r := if hexPrefix then 16 else if radix == 0 then 10 else radix;
    var z := DigitPrefix(if hexPrefix then u[2..] else u, r);
    if z == [] then None else Some(ValueOf(z, r))
  }

  function Negate(m: Option<int>): Option<int>
  {
    match m
    case None => None
    case Some(v) => Some(-v)
  }

  lemma Assoc(a: string, b: string, c: string)
    ensures a + b + c == a + (b + c)
  {
  }

  lemma {:induction false} TrimStartSkips(ws: string, x: string)
    requires forall i :: 0 <= i < |ws| ==> IsWhitespace(ws[i])
    requires x == [] || !IsWhitespace(x[0])
    ensures TrimStart(ws + x) == x
  {
    if ws == [] {
      assert ws + x == x;
    } else {
      assert (ws + x)[1..] == ws[1..] + x;
      TrimStartSkips(ws[1..], x);
    }
  }

  lemma {:induction false} DigitPrefixStops(digits: string, rest: string, radix: int)
    requires IsNumeral(digits, radix)
    requires rest == [] || !IsDigit(rest[0], radix)
    ensures DigitPrefix(digits + rest, radix) == digits
  {
    if digits == [] {
      assert digits + rest == rest;
    } else {
      assert (digits + rest)[1..] == digits[1..] + rest;
      DigitPrefixStops(digits[1..], rest, radix);
    }
  }

  /**
   * The accepting half of parseInt's grammar: white space, an optional sign,
   * an optional `0x` when the radix is 16, a run of digits, then anything
   * that does not start with a digit. The result is the run's value, negated
   * after a minus sign.
   */
  lemma ParseIntAccepts(ws: string, sign: string, prefix: string, digits: string, rest: string, radix: nat)
    requires 2 <= radix <= 36
    requires forall i :: 0 <= i < |ws| ==> IsWhitespace(ws[i])
    requires IsSign(sign)
    requires IsPrefix(prefix, radix)
    requires digits != [] && IsNumeral(digits, radix)
    requires rest == [] || !IsDigit(rest[0], radix)
    requires radix == 16 && prefix == [] ==> !HasHexPrefix(digits + rest)
    ensures ParseInt(ws + sign + prefix + digits + rest, radix) == Some(ApplySign(sign, ValueOf(digits, radix)))
  {
    var x := sign + (prefix + digits + rest);
    assert ws + sign + prefix + digits + rest == ws + x by {
      Assoc(ws + sign + prefix, digits, rest);
      Assoc(ws + sign, prefix, digits + rest);
      Assoc(ws, sign, prefix + (digits + rest));
      Assoc(prefix, digits, rest);
    }
    MagnitudeStart(prefix, digits, rest, radix);
    SignedStart(sign, prefix + digits + rest);
    TrimStartSkips(ws, x);
    SignedAccepts(sign, prefix, digits, rest, radix);
  }

  /** A sign, or nothing, before text that opens with neither white space nor a sign. */
  lemma SignedStart(sign: string, u: string)
    requires IsSign(sign) && u != [] && !IsWhitespace(u[0])
    ensures sign + u != [] && !IsWhitespace((sign + u)[0])
  {
    assert (sign + u)[0] == if sign == [] then u[0] else sign[0];
  }

  lemma SignedAccepts(sign: string, prefix: string, digits: string, rest: string, radix: nat)
    requires 2 <= radix <= 36
    requires IsSign(sign)
    requires IsPrefix(prefix, radix)
    requires digits != [] && IsNumeral(digits, radix)
    requires rest == [] || !IsDigit(rest[0], radix)
    requires radix == 16 && prefix == [] ==> !HasHexPrefix(digits + rest)
    ensures ParseSigned(sign + (prefix + digits + rest), radix) == Some(ApplySign(sign, ValueOf(digits, radix)))
  {
    var u := prefix + digits + rest;
    MagnitudeStart(prefix, digits, rest, radix);
    MagnitudeAccepts(prefix, digits, rest, radix);
    SignedParse(sign, u, radix);
    SignApplied(sign, ValueOf(digits, radix));
  }

  lemma SignApplied(sign: string, v: int)
    ensures (if IsMinus(sign) then Negate(Some(v)) else Some(v)) == Some(ApplySign(sign, v))
  {
  }

  function ApplySign(sign: string, v: int): int
  {
    if IsMinus(sign) then -v else v
  }

  /** A sign in front of a magnitude that does not itself open with a sign. */
  lemma SignedParse(sign: string, u: string, radix: int)
    requires radix == 0 || 2 <= radix <= 36
    requires IsSign(sign)
    requires sign == [] && u != [] ==> u[0] != '+' && u[0] != '-'
    ensures ParseSigned(sign + u, radix)
         == if IsMinus(sign) then Negate(ParseMagnitude(u, radix)) else ParseMagnitude(u, radix)
  {
    if sign != [] {
      assert (sign + u)[1..] == u;
    } else {
      assert sign + u == u;
    }
  }

  /** A magnitude opens with `0` or a digit: neither white space nor a sign. */
  lemma MagnitudeStart(prefix: string, digits: string, rest: string, radix: nat)
    requires IsPrefix(prefix, radix)
    requires digits != [] && IsNumeral(digits, radix)
    ensures prefix + digits + rest != [] && (prefix + digits + rest)[0] != '+' && (prefix + digits + rest)[0] != '-'
    ensures !IsWhitespace((prefix + digits + rest)[0])
  {
    var c := (prefix + digits + rest)[0];
    assert c == if prefix == [] then digits[0] else prefix[0];
    assert DigitValue(c) >= 0;
  }

  lemma MagnitudeAccepts(prefix: string, digits: string, rest: string, radix: nat)
    requires 2 <= radix <= 36
    requires IsPrefix(prefix, radix)
    requires digits != [] && IsNumeral(digits, radix)
    requires rest == [] || !IsDigit(rest[0], radix)
    requires radix == 16 && prefix == [] ==> !HasHexPrefix(digits + rest)
    ensures ParseMagnitude(prefix + digits + rest, radix) == Some(ValueOf(digits, radix))
  {
    Assoc(prefix, digits, rest);
    if prefix == [] {
      assert prefix + (digits + rest) == digits + rest;
      BareMagnitude(digits, rest, radix);
    } else {
      PrefixedMagnitude(prefix, digits + rest);
      DigitPrefixStops(digits, rest, radix);
    }
  }

  lemma BareMagnitude(digits: string, rest: string, radix: nat)
    requires 2 <= radix <= 36
    requires digits != [] && IsNumeral(digits, radix)
    requires rest == [] || !IsDigit(rest[0], radix)
    requires radix == 16 ==> !HasHexPrefix(digits + rest)
    ensures ParseMagnitude(digits + rest, radix) == Some(ValueOf(digits, radix))
  {
    DigitPrefixStops(digits, rest, radix);
  }

  lemma PrefixedMagnitude(prefix: string, v: string)
    requires |prefix| == 2 && HasHexPrefix(prefix)
    ensures ParseMagnitude(prefix + v, 16) == var z := DigitPrefix(v, 16); if z == [] then None else Some(ValueOf(z, 16))
  {
    assert HasHexPrefix(prefix + v) && (prefix + v)[2..] == v;
  }

  /**
   * The rejecting half: white space, an optional sign, an optional `0x` when
   * the radix is 16, and then no digit, give NaN. Where nothing precedes
   * `rest` but white space, `rest` must not open with more white space or a
   * sign, which parseInt would still consume.
   */
  lemma ParseIntRejects(ws: string, sign: string, prefix: string, rest: string, radix: nat)
    requires 2 <= radix <= 36
    requires forall i :: 0 <= i < |ws| ==> IsWhitespace(ws[i])
    requires IsSign(sign)
    requires IsPrefix(prefix, radix)
    requires rest == [] || !IsDigit(rest[0], radix)
    requires sign == [] && prefix == [] && rest != [] ==>
               !IsWhitespace(rest[0]) && rest[0] != '+' && rest[0] != '-'
    ensures ParseInt(ws + sign + prefix + rest, radix) == None
  {
    var x := sign + (prefix + rest);
    assert ws + sign + prefix + rest == ws + x by {
      Assoc(ws + sign, prefix, rest);
      Assoc(ws, sign, prefix + rest);
    }
    TrimStartSkips(ws, x);
    SignedParse(sign, prefix + rest, radix);
    MagnitudeRejects(prefix, rest, radix);
  }

  lemma MagnitudeRejects(prefix: string, rest: string, radix: nat)
    requires 2 <= radix <= 36
    requires IsPrefix(prefix, radix)
    requires rest == [] || !IsDigit(rest[0], radix)
    ensures ParseMagnitude(prefix + rest, radix) == None
  {
    var u := prefix + rest;
    if prefix != [] {
      assert HasHexPrefix(u) && u[2..] == rest;
    } else {
      assert u == rest && !HasHexPrefix(u);
    }
    DigitPrefixStops([], rest, radix);
  }

  /** A bare numeral, as toString writes it, reads back as its own value. */
  lemma ParseIntNumeral(digits: string, radix: nat)
    requires 2 <= radix <= 36 && digits != [] && IsNumeral(digits, radix)
    requires radix == 16 ==> !HasHexPrefix(digits)
    ensures ParseInt(digits, radix) == Some(ValueOf(digits, radix))
  {
    assert [] + [] + [] + digits + [] == digits;
    ParseIntAccepts([], [], [], digits, [], radix);
  }

  /** A minus sign before a bare numeral negates its value. */
  lemma ParseIntNegated(digits: string, radix: nat)
    requires 2 <= radix <= 36 && digits != [] && IsNumeral(digits, radix)
    requires radix == 16 ==> !HasHexPrefix(digits)
    ensures var v: int := ValueOf(digits, radix); ParseInt("-" + digits, radix) == Some(-v)
  {
    assert [] + "-" + [] + digits + [] == "-" + digits;
    ParseIntAccepts([], "-", [], digits, [], radix);
    assert IsMinus("-");
  }

  /** Hexadecimal digits are read case-insensitively: "1A" is 26. */
  lemma ParseIntHexExample(s: string)
    requires s == "1A"
    ensures ParseInt(s, 16) == Some(26)
  {
    assert ValueOf("1A", 16) == 26 by {
      ValueOfAppend("1", 'A', 16);
      assert "1" + ['A'] == "1A";
      assert "1"[..0] == [];
    }
    ParseIntNumeral(s, 16);
  }

  /** "G" has no hexadecimal digit, so it is NaN. */
  lemma ParseIntNoHexDigitExample(s: string)
    requires s == "G"
    ensures ParseInt(s, 16) == None
  {
    assert [] + [] + [] + "G" == s;
    ParseIntRejects([], [], [], "G", 16);
  }

  /** A prefix parse: "12abc" in decimal is 12. */
  lemma ParseIntPrefixExample(s: string)
    requires s == "12abc"
    ensures ParseInt(s, 10) == Some(12)
  {
    assert ValueOf("12", 10) == 12 by {
      ValueOfAppend("1", '2', 10);
      assert "1" + ['2'] == "12";
      assert "1"[..0] == [];
    }
    assert [] + [] + [] + "12" + "abc" == s;
    ParseIntAccepts([], [], [], "12", "abc", 10);
  }

  /** A leading minus sign is accepted: "-1" is -1. */
  lemma ParseIntNegativeExample(s: string)
    requires s == "-1"
    ensures ParseInt(s, 10) == Some(-1)
  {
    assert ValueOf("1", 10) == 1 by {
      assert "1"[..0] == [];
    }
    assert "-" + "1" == s;
    ParseIntNegated("1", 10);
  }

  /** White space and a 0x prefix are skipped in radix 16: " 0x1f" is 31. */
  lemma ParseIntHexPrefixExample(s: string)
    requires s == " 0x1f"
    ensures ParseInt(s, 16) == Some(31)
  {
    assert ValueOf("1f", 16) == 31 by {
      ValueOfAppend("1", 'f', 16);
      assert "1" + ['f'] == "1f";
      assert "1"[..0] == [];
    }
    assert " " + [] + "0x" + "1f" + [] == s;
    ParseIntAccepts(" ", [], "0x", "1f", [], 16);
  }
}
