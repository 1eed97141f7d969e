/**
 * Numerals in a radix between 2 and 36, as JavaScript reads and writes them:
 * the value of a digit string, `Number.prototype.toString(radix)` on a
 * non-negative integer, `toUpperCase` on such a string, `padStart`, and the
 * `>>> 0` conversion to a 32-bit unsigned integer.
 */
module Radix {

  const TwoTo32: nat := 0x1_0000_0000

  function Pow(b: nat, e: nat): (p: nat)
    ensures b >= 1 ==> p >= 1
  {
    if e == 0 then 1 else b * Pow(b, e - 1)
  }

  /** Value of `c` as a digit, case-insensitive, or -1 when `c` is no digit in any radix up to 36. */
  function DigitValue(c: char): int
  {
    if '0' <= c <= '9' then c as int - '0' as int
    else if 'a' <= c <= 'z' then c as int - 'a' as int + 10
    else if 'A' <= c <= 'Z' then c as int - 'A' as int + 10
    else -1
  }

  predicate IsDigit(c: char, radix: int)
  {
    0 <= DigitValue(c) < radix
  }

  /** The digits of radix 2 are the characters '0' and '1'. */
  lemma BinaryDigit(c: char)
    requires IsDigit(c, 2)
    ensures c == '0' || c == '1'
  {
  }

  predicate IsNumeral(s: string, radix: int)
  {
    forall i :: 0 <= i < |s| ==> IsDigit(s[i], radix)
  }

  /** No leading zero, except for the numeral "0" itself. */
  predicate IsCanonical(s: string)
  {
    |s| >= 1 && (s[0] == '0' ==> |s| == 1)
  }

  predicate HasNoLowerCase(s: string)
  {
    forall i :: 0 <= i < |s| ==> !('a' <= s[i] <= 'z')
  }

  predicate HasNoUpperCase(s: string)
  {
    forall i :: 0 <= i < |s| ==> !('A' <= s[i] <= 'Z')
  }

  /** The value of a numeral, most significant digit first. */
  function ValueOf(s: string, radix: nat): (n: nat)
    requires 2 <= radix && IsNumeral(s, radix)
    ensures n < Pow(radix, |s|)
  {
    if s == [] then 0
    else
      var prefix := s[..|s| - 1];
      assert |prefix| == |s| - 1 && IsNumeral(prefix, radix);
      var p := ValueOf(prefix, radix);
      var d := DigitValue(s[|s| - 1]);
      DigitStep(p, |s|, radix, d);
      p * radix + d
  }

  lemma {:induction false} PowAdd(b: nat, m: nat, n: nat)
    ensures Pow(b, m + n) == Pow(b, m) * Pow(b, n)
  {
    if n > 0 {
      PowAdd(b, m, n - 1);
      assert Pow(b, m + n) == b * Pow(b, m + n - 1);
      MulRotate(b, Pow(b, m), Pow(b, n - 1));
    }
  }

  lemma MulRotate(a: nat, b: nat, c: nat)
    ensures a * (b * c) == b * (a * c)
  {
  }

  lemma MulMonotone(a: nat, b: nat, c: nat)
    requires a <= b
    ensures a * c <= b * c
  {
  }

  /** Appending a digit below `r` to a value below `r^(k - 1)` gives a value below `r^k`. */
  lemma DigitStep(p: nat, k: nat, r: nat, d: int)
    requires 1 <= k && 1 <= r && p < Pow(r, k - 1) && 0 <= d < r
    ensures 0 <= p * r + d < Pow(r, k)
  {
    var bound := Pow(r, k - 1);
    assert Pow(r, k) == r * bound;
    MulMonotone(p + 1, bound, r);
    assert (p + 1) * r == p * r + r;
  }

  /** The lower-case digit character JavaScript writes for `d`. */
  function DigitChar(d: nat): (c: char)
    requires d < 36
    ensures DigitValue(c) == d && !('A' <= c <= 'Z')
    ensures c == '0' <==> d == 0
  {
    if d < 10 then ('0' as int + d) as char else ('a' as int + d - 10) as char
  }

  /** `n.toString(radix)` for a non-negative integer `n`. */
  function ToDigits(n: nat, radix: nat): string
    requires 2 <= radix <= 36
    decreases n
  {
    if n < radix then [DigitChar(n)]
    else
      DivMod(n, radix);
      ToDigits(n / radix, radix) + [DigitChar(n % radix)]
  }

  /** `toString(radix)` writes a canonical lower-case numeral whose value is `n`. */
  lemma {:induction false} ToDigitsCanonical(n: nat, radix: nat)
    requires 2 <= radix <= 36
    ensures IsNumeral(ToDigits(n, radix), radix) && IsCanonical(ToDigits(n, radix))
    ensures HasNoUpperCase(ToDigits(n, radix))
    ensures ValueOf(ToDigits(n, radix), radix) == n
    decreases n
  {
    if n >= radix {
      var q, c := n / radix, DigitChar(n % radix);
      DivMod(n, radix);
      var p := ToDigits(q, radix);
      var s := p + [c];
      assert ToDigits(n, radix) == s;
      ToDigitsCanonical(q, radix);
      assert q >= 1;
      assert p[0] != '0' by {
        if |p| == 1 {
          assert p[..0] == [];
        }
      }
      ValueOfAppend(p, c, radix);
    }
  }

  /** Appending one digit: the old value shifted by one place, plus the digit. */
  lemma ValueOfAppend(p: string, c: char, radix: nat)
    requires 2 <= radix && IsNumeral(p, radix) && IsDigit(c, radix)
    ensures IsNumeral(p + [c], radix)
    ensures ValueOf(p + [c], radix) == ValueOf(p, radix) * radix + DigitValue(c)
  {
    var s := p + [c];
    assert s[..|s| - 1] == p;
  }

  lemma DivMod(n: nat, r: nat)
    requires r > 0
    ensures (n / r) * r + n % r == n && 0 <= n % r < r
    ensures r >= 2 && n >= 1 ==> n / r < n
  {
  }

  /** A value below `radix^k` needs at most `k` digits. */
  lemma {:induction false} ToDigitsLength(n: nat, radix: nat, k: nat)
    requires 2 <= radix <= 36 && 1 <= k && n < Pow(radix, k)
    ensures |ToDigits(n, radix)| <= k
    decreases n
  {
    if n >= radix {
      assert Pow(radix, 1) == radix;
      assert k >= 2;
      var q := n / radix;
      DivMod(n, radix);
      var b := Pow(radix, k - 1);
      assert Pow(radix, k) == radix * b;
      assert q < b by {
        if q >= b {
          MulMonotone(b, q, radix);
        }
      }
      ToDigitsLength(q, radix, k - 1);
    }
  }

  /** `toUpperCase` on one character of a numeral. */
  function UpperChar(c: char): (u: char)
    ensures DigitValue(u) == DigitValue(c) && !('a' <= u <= 'z')
  {
    if 'a' <= c <= 'z' then (c as int - 32) as char else c
  }

  function Upper(s: string): (r: string)
    ensures |r| == |s| && HasNoLowerCase(r)
    ensures forall i :: 0 <= i < |s| ==> DigitValue(r[i]) == DigitValue(s[i])
  {
    seq(|s|, i requires 0 <= i < |s| => UpperChar(s[i]))
  }

  /** Two numerals with the same digit values, position by position, have the same value. */
  lemma {:induction false} ValueOfSameDigits(s: string, t: string, radix: nat)
    requires 2 <= radix && IsNumeral(s, radix) && |s| == |t|
    requires forall i :: 0 <= i < |s| ==> DigitValue(t[i]) == DigitValue(s[i])
    ensures IsNumeral(t, radix) && ValueOf(t, radix) == ValueOf(s, radix)
  {
    if s != [] {
      ValueOfSameDigits(s[..|s| - 1], t[..|t| - 1], radix);
    }
  }

  /** Upper-casing a numeral keeps it a numeral of the same value and the same shape. */
  lemma UpperNumeral(s: string, radix: nat)
    requires 2 <= radix && IsNumeral(s, radix)
    ensures IsNumeral(Upper(s), radix) && ValueOf(Upper(s), radix) == ValueOf(s, radix)
    ensures IsCanonical(s) ==> IsCanonical(Upper(s))
  {
    ValueOfSameDigits(s, Upper(s), radix);
    if IsCanonical(s) {
      assert Upper(s)[0] == '0' ==> DigitValue(s[0]) == 0;
    }
  }

  function Repeat(c: char, k: nat): (r: string)
    ensures |r| == k && forall i :: 0 <= i < k ==> r[i] == c
  {
    seq(k, _ => c)
  }

  /** `s.padStart(len, fill)` for a one-character `fill`. */
  function PadStart(s: string, len: nat, fill: char): (r: string)
    ensures |r| == if |s| >= len then |s| else len
    ensures r[|r| - |s|..] == s
    ensures forall i :: 0 <= i < |r| - |s| ==> r[i] == fill
  {
    if |s| >= len then s else Repeat(fill, len - |s|) + s
  }

  /** Reading a numeral split in two: the left part shifted by the right part's length. */
  lemma {:induction false} ValueOfConcat(a: string, b: string, radix: nat)
    requires 2 <= radix && IsNumeral(a, radix) && IsNumeral(b, radix)
    ensures IsNumeral(a + b, radix)
    ensures ValueOf(a + b, radix) == ValueOf(a, radix) * Pow(radix, |b|) + ValueOf(b, radix)
  {
    if b == [] {
      assert a + b == a;
    } else {
      var b' := b[..|b| - 1];
      assert (a + b)[..|a + b| - 1] == a + b';
      ValueOfConcat(a, b', radix);
      var va, vb' := ValueOf(a, radix), ValueOf(b', radix);
      var p' := Pow(radix, |b'|);
      var d := DigitValue(b[|b| - 1]);
      assert ValueOf(a + b, radix) == (va * p' + vb') * radix + d;
      assert Pow(radix, |b|) == radix * p';
      assert ValueOf(b, radix) == vb' * radix + d;
      Distribute(va, p', vb', radix);
    }
  }

  lemma Distribute(a: nat, p: nat, v: nat, r: nat)
    ensures (a * p + v) * r == a * (r * p) + v * r
  {
  }

  /** A numeral split around position `i`: the left part, the digit at `i`, the right part. */
  lemma SplitAt(s: string, i: nat, radix: nat)
    requires 2 <= radix && IsNumeral(s, radix) && i < |s|
    ensures ValueOf(s, radix) ==
      (ValueOf(s[..i], radix) * radix + DigitValue(s[i])) * Pow(radix, |s| - 1 - i) + ValueOf(s[i + 1..], radix)
  {
    var left, right := s[..i + 1], s[i + 1..];
    assert s == left + right;
    ValueOfConcat(left, right, radix);
    assert left[..i] == s[..i] && left[i] == s[i];
  }

  /** A run of zeros is worth nothing. */
  lemma {:induction false} ValueOfZeros(k: nat, radix: nat)
    requires 2 <= radix
    ensures IsNumeral(Repeat('0', k), radix) && ValueOf(Repeat('0', k), radix) == 0
  {
    if k > 0 {
      assert Repeat('0', k)[..k - 1] == Repeat('0', k - 1);
      ValueOfZeros(k - 1, radix);
    }
  }

  /** Padding a numeral on the left with zeros does not change its value. */
  lemma ValueOfPadded(s: string, len: nat, radix: nat)
    requires 2 <= radix && IsNumeral(s, radix)
    ensures IsNumeral(PadStart(s, len, '0'), radix)
    ensures ValueOf(PadStart(s, len, '0'), radix) == ValueOf(s, radix)
  {
    if |s| < len {
      ValueOfZeros(len - |s|, radix);
      ValueOfConcat(Repeat('0', len - |s|), s, radix);
    }
  }

  /** `k` ones in base 2 are worth `2^k - 1`. */
  lemma {:induction false} ValueOfOnes(k: nat)
    ensures IsNumeral(Repeat('1', k), 2) && ValueOf(Repeat('1', k), 2) == Pow(2, k) - 1
  {
    if k > 0 {
      assert Repeat('1', k)[..k - 1] == Repeat('1', k - 1);
      ValueOfOnes(k - 1);
    }
  }

  /** `Number.prototype.toString()` on an integer: an optional minus sign, then the decimal digits. */
  function IntToString(d: int): string
  {
    if d < 0 then "-" + ToDigits(-d, 10) else ToDigits(d, 10)
  }

  /** `d >>> 0` on an integral number: the residue of `d` modulo 2^32 in [0, 2^32). */
  function ToUint32(d: int): (u: nat)
    ensures u < TwoTo32 && (d - u) % TwoTo32 == 0
    ensures 0 <= d < TwoTo32 ==> u == d
  {
    d % TwoTo32
  }
}
