/**
 * The 32-bit manipulator: the grid of 32 bits derived from the binary field
 * (index 0 the most significant bit), and the buttons that each compute a new
 * binary text from that grid: toggle one bit, shift left, shift right, set
 * all, clear all.
 */
module BitGrid {
  import opened Radix

  /** Bit `k` of `v`, bit 0 being the least significant. */
  function Bit(v: nat, k: nat): (b: nat)
    ensures b < 2
  {
    if k == 0 then v % 2 else Bit(v / 2, k - 1)
  }

  /** `Number(c)` on a character of a binary text. */
  function CharBit(c: char): int
  {
    if c == '1' then 1 else 0
  }

  predicate IsBitArray(bits: seq<int>)
  {
    forall i :: 0 <= i < |bits| ==> bits[i] == 0 || bits[i] == 1
  }

  /**
   * The grid for a binary text of at most 32 characters: the text's bits
   * right-aligned, with zeros filling the left.
   */
  function BitsOf(binary: string): (bits: seq<int>)
    requires |binary| <= 32 && IsNumeral(binary, 2)
    ensures |bits| == 32 && IsBitArray(bits)
  {
    seq(32 - |binary|, _ => 0) + seq(|binary|, i requires 0 <= i < |binary| => CharBit(binary[i]))
  }

  /** The effect that rebuilds the grid whenever the binary field changes. */
  method DeriveBits(binary: string) returns (newBits: array<int>)
    requires |binary| <= 32 && IsNumeral(binary, 2)
    ensures fresh(newBits) && newBits[..] == BitsOf(binary)
  {
    newBits := new int[32](_ => 0);
    if binary != [] {
      var binArray := seq(|binary|, i requires 0 <= i < |binary| => CharBit(binary[i]));
      var n := |binArray|;
      var i := 0;
      while i < n && i < 32
        invariant 0 <= i <= n
        invariant forall k :: 0 <= k < 32 ==>
          newBits[k] == if 32 - n <= k < 32 - n + i then binArray[k - (32 - n)] else 0
      {
        newBits[31 - (n - 1 - i)] := binArray[i];
        i := i + 1;
      }
    }
  }

  /** `bits.join("")` on a grid of zeros and ones. */
  function Join(bits: seq<int>): (s: string)
    requires IsBitArray(bits)
    ensures |s| == |bits| && IsNumeral(s, 2)
    ensures forall i :: 0 <= i < |bits| ==> CharBit(s[i]) == bits[i]
  {
    seq(|bits|, i requires 0 <= i < |bits| => if bits[i] == 1 then '1' else '0')
  }

  /** Bit `k` of a binary numeral's value is its `k`-th character from the right, and 0 beyond. */
  lemma {:induction false} BitOfNumeral(s: string, k: nat)
    requires IsNumeral(s, 2)
    ensures Bit(ValueOf(s, 2), k) == if k < |s| then CharBit(s[|s| - 1 - k]) else 0
  {
    if s == [] {
      BitOfZero(k);
    } else {
      var p := s[..|s| - 1];
      var v := ValueOf(s, 2);
      assert v == ValueOf(p, 2) * 2 + DigitValue(s[|s| - 1]);
      if k > 0 {
        assert v / 2 == ValueOf(p, 2);
        BitOfNumeral(p, k - 1);
        if k < |s| {
          assert p[|p| - 1 - (k - 1)] == s[|s| - 1 - k];
        }
      }
    }
  }

  lemma {:induction false} BitOfZero(k: nat)
    ensures Bit(0, k) == 0
  {
    if k > 0 {
      BitOfZero(k - 1);
    }
  }

  /** Entry `i` of the grid shows bit `31 - i` of the binary field's value; an empty field shows zeros. */
  lemma BitsOfValue(binary: string, i: nat)
    requires |binary| <= 32 && IsNumeral(binary, 2) && i < 32
    ensures BitsOf(binary)[i] == Bit(ValueOf(binary, 2), 31 - i)
  {
    BitOfNumeral(binary, 31 - i);
  }

  /** Joining the grid gives the binary field back, padded to 32 characters. */
  lemma JoinBitsOf(binary: string)
    requires |binary| <= 32 && IsNumeral(binary, 2)
    ensures Join(BitsOf(binary)) == PadStart(binary, 32, '0')
    ensures ValueOf(Join(BitsOf(binary)), 2) == ValueOf(binary, 2)
  {
    JoinBitsOfText(binary);
    ValueOfPadded(binary, 32, 2);
  }

  lemma JoinBitsOfText(binary: string)
    requires |binary| <= 32 && IsNumeral(binary, 2)
    ensures Join(BitsOf(binary)) == PadStart(binary, 32, '0')
  {
    var j, p := Join(BitsOf(binary)), PadStart(binary, 32, '0');
    var pad := 32 - |binary|;
    forall i | 0 <= i < 32
      ensures j[i] == p[i]
    {
    }
  }

  /** The value of a grid of zeros and ones, read most significant bit first. */
  function GridValue(bits: seq<int>): nat
    requires IsBitArray(bits)
  {
    ValueOf(Join(bits), 2)
  }

  /**
   * Toggling bit `index` (0 = most significant) and joining the grid. The
   * result differs from the grid in that position only; its value is the
   * grid's value with bit `31 - index` flipped, that is, XOR with
   * `2^(31 - index)`.
   */
  method ToggleBit(bits: array<int>, index: int) returns (binary: string)
    requires bits.Length == 32 && IsBitArray(bits[..]) && 0 <= index < 32
    ensures |binary| == 32 && IsNumeral(binary, 2)
    ensures forall j :: 0 <= j < 32 ==>
      CharBit(binary[j]) == if j == index then 1 - bits[j] else bits[j]
    ensures forall k :: 0 <= k < 32 ==>
      Bit(ValueOf(binary, 2), k) ==
        if k == 31 - index then 1 - Bit(GridValue(bits[..]), k) else Bit(GridValue(bits[..]), k)
    ensures ValueOf(binary, 2) ==
      if bits[index] == 0 then GridValue(bits[..]) + Pow(2, 31 - index)
      else GridValue(bits[..]) - Pow(2, 31 - index)
  {
    ghost var grid := bits[..];
    var newBits := new int[32](j requires 0 <= j < 32 reads bits => bits[j]);
    newBits[index] := if newBits[index] == 0 then 1 else 0;
    assert newBits[..] == grid[index := 1 - grid[index]];
    binary := Join(newBits[..]);
    ToggleMeaning(grid, index);
  }

  lemma ToggleMeaning(bits: seq<int>, index: nat)
    requires |bits| == 32 && IsBitArray(bits) && index < 32
    ensures IsBitArray(bits[index := 1 - bits[index]])
    ensures var w := GridValue(bits[index := 1 - bits[index]]);
      forall k :: 0 <= k < 32 ==>
        Bit(w, k) == if k == 31 - index then 1 - Bit(GridValue(bits), k) else Bit(GridValue(bits), k)
    ensures GridValue(bits[index := 1 - bits[index]]) ==
      if bits[index] == 0 then GridValue(bits) + Pow(2, 31 - index)
      else GridValue(bits) - Pow(2, 31 - index)
  {
    var toggled := bits[index := 1 - bits[index]];
    var s, t := Join(bits), Join(toggled);
    ToggledText(bits, index);
    ToggledBits(s, t, index);
    ToggleArithmetic(s, t, index);
  }

  /** The joined text of a grid with entry `i` toggled differs from the grid's text in position `i` only. */
  lemma ToggledText(bits: seq<int>, i: nat)
    requires IsBitArray(bits) && i < |bits|
    ensures IsBitArray(bits[i := 1 - bits[i]])
    ensures var s, t := Join(bits), Join(bits[i := 1 - bits[i]]);
      |s| == |t| && s[..i] == t[..i] && s[i + 1..] == t[i + 1..]
      && DigitValue(s[i]) == bits[i] && DigitValue(t[i]) == 1 - bits[i]
  {
    var toggled := bits[i := 1 - bits[i]];
    assert IsBitArray(toggled) by {
      forall j | 0 <= j < |toggled|
        ensures toggled[j] == 0 || toggled[j] == 1
      {
      }
    }
    var s, t := Join(bits), Join(toggled);
    assert s[..i] == t[..i];
    assert s[i + 1..] == t[i + 1..];
  }

  /** Flipping the digit at `i` of a 32-digit binary numeral flips bit `31 - i` of its value and no other. */
  lemma ToggledBits(s: string, t: string, i: nat)
    requires IsNumeral(s, 2) && IsNumeral(t, 2) && |s| == |t| == 32 && i < 32
    requires s[..i] == t[..i] && s[i + 1..] == t[i + 1..]
    requires DigitValue(t[i]) == 1 - DigitValue(s[i])
    ensures forall k :: 0 <= k < 32 ==>
      Bit(ValueOf(t, 2), k) == if k == 31 - i then 1 - Bit(ValueOf(s, 2), k) else Bit(ValueOf(s, 2), k)
  {
    forall k | 0 <= k < 32
      ensures Bit(ValueOf(t, 2), k) ==
        if k == 31 - i then 1 - Bit(ValueOf(s, 2), k) else Bit(ValueOf(s, 2), k)
    {
      BitOfNumeral(s, k);
      BitOfNumeral(t, k);
      var j := 31 - k;
      if j < i {
        assert s[j] == s[..i][j] == t[..i][j] == t[j];
      } else if j > i {
        assert s[j] == s[i + 1..][j - i - 1] == t[i + 1..][j - i - 1] == t[j];
      }
      BinaryDigit(s[j]);
      BinaryDigit(t[j]);
    }
  }

  /** Two binary numerals that differ in one digit differ in value by that digit's weight. */
  lemma ToggleArithmetic(s: string, t: string, i: nat)
    requires IsNumeral(s, 2) && IsNumeral(t, 2) && |s| == |t| && i < |s|
    requires s[..i] == t[..i] && s[i + 1..] == t[i + 1..]
    requires DigitValue(t[i]) == 1 - DigitValue(s[i])
    ensures ValueOf(t, 2) ==
      if DigitValue(s[i]) == 0 then ValueOf(s, 2) + Pow(2, |s| - 1 - i)
      else ValueOf(s, 2) - Pow(2, |s| - 1 - i)
  {
    var h, w, r := ValueOf(s[..i], 2) * Pow(2, |s| - i), Pow(2, |s| - 1 - i), ValueOf(s[i + 1..], 2);
    var bs, bt := (if DigitValue(s[i]) == 1 then w else 0), (if DigitValue(t[i]) == 1 then w else 0);
    assert ValueOf(s, 2) == h + bs + r by {
      PrefixSplit(s, i);
      DigitAt(s, i);
    }
    assert ValueOf(t, 2) == h + bt + r by {
      PrefixSplit(t, i);
      DigitAt(t, i);
      assert ValueOf(t[..i], 2) == ValueOf(s[..i], 2) && ValueOf(t[i + 1..], 2) == r;
      assert Pow(2, |t| - i) == Pow(2, |s| - i) && Pow(2, |t| - 1 - i) == w;
    }
  }

  /** A binary numeral is its first `i` digits, shifted, plus the rest. */
  lemma PrefixSplit(s: string, i: nat)
    requires IsNumeral(s, 2) && i <= |s|
    ensures ValueOf(s, 2) == ValueOf(s[..i], 2) * Pow(2, |s| - i) + ValueOf(s[i..], 2)
  {
    assert s == s[..i] + s[i..];
    ValueOfConcat(s[..i], s[i..], 2);
  }

  /** The digit at `i` of a binary numeral is worth `2^(|s| - 1 - i)` or nothing. */
  lemma DigitAt(s: string, i: nat)
    requires IsNumeral(s, 2) && i < |s|
    ensures ValueOf(s[i..], 2) == (if DigitValue(s[i]) == 1 then Pow(2, |s| - 1 - i) else 0) + ValueOf(s[i + 1..], 2)
  {
    var u := s[i..];
    assert u[1..] == s[i + 1..] && u[0] == s[i];
    assert |u| - 1 == |s| - 1 - i;
    LeadingBit(u);
  }

  /** The leading digit of a binary numeral is worth `2^(|s| - 1)` or nothing. */
  lemma LeadingBit(s: string)
    requires IsNumeral(s, 2) && s != []
    ensures ValueOf(s, 2) == (if DigitValue(s[0]) == 1 then Pow(2, |s| - 1) else 0) + ValueOf(s[1..], 2)
  {
    var digit, rest := s[..1], s[1..];
    assert s == digit + rest;
    ValueOfConcat(digit, rest, 2);
    assert digit[..0] == [];
    BinaryDigit(s[0]);
    assert ValueOf(digit, 2) == DigitValue(s[0]);
    ScaleBit(ValueOf(digit, 2), Pow(2, |rest|));
  }

  lemma ScaleBit(b: int, w: int)
    requires b == 0 || b == 1
    ensures b * w == if b == 1 then w else 0
  {
  }

  /** Shift Left: drop the most significant bit, a zero enters at the least significant end. */
  function ShiftLeft(bits: seq<int>): string
    requires |bits| == 32 && IsBitArray(bits)
  {
    Join(bits[1..]) + "0"
  }

  /** Shift Right: drop the least significant bit, a zero enters at the most significant end. */
  function ShiftRight(bits: seq<int>): string
    requires |bits| == 32 && IsBitArray(bits)
  {
    "0" + Join(bits[..31])
  }

  /** Set All: thirty-two ones. */
  function SetAll(): string
  {
    Repeat('1', 32)
  }

  /** Clear: thirty-two zeros. */
  function ClearAll(): string
  {
    Repeat('0', 32)
  }

  lemma PowTwo32()
    ensures Pow(2, 31) == 0x8000_0000 && Pow(2, 32) == TwoTo32
  {
    assert Pow(2, 4) == 16;
    PowAdd(2, 4, 4);
    PowAdd(2, 8, 8);
    PowAdd(2, 16, 15);
    PowAdd(2, 16, 16);
    assert Pow(2, 15) == 0x8000 by {
      assert Pow(2, 16) == 2 * Pow(2, 15);
    }
  }

  /** Shifting left is doubling modulo 2^32. */
  lemma ShiftLeftValue(bits: seq<int>)
    requires |bits| == 32 && IsBitArray(bits)
    ensures |ShiftLeft(bits)| == 32 && IsNumeral(ShiftLeft(bits), 2)
    ensures ValueOf(ShiftLeft(bits), 2) == (2 * GridValue(bits)) % TwoTo32
  {
    var s, rest := Join(bits), Join(bits[1..]);
    assert rest == s[1..];
    LeadingBit(s);
    PowTwo32();
    var w := ValueOf(rest, 2);
    assert GridValue(bits) == (if DigitValue(s[0]) == 1 then 0x8000_0000 else 0) + w;
    ValueOfAppend(rest, '0', 2);
    assert ShiftLeft(bits) == rest + ['0'];
    assert 2 * w < TwoTo32;
  }

  /** Shifting right is halving, rounding down. */
  lemma ShiftRightValue(bits: seq<int>)
    requires |bits| == 32 && IsBitArray(bits)
    ensures |ShiftRight(bits)| == 32 && IsNumeral(ShiftRight(bits), 2)
    ensures ValueOf(ShiftRight(bits), 2) == GridValue(bits) / 2
  {
    var s := Join(bits);
    assert Join(bits[..31]) == s[..31];
    SplitAt(s, 31, 2);
    assert s[32..] == [];
    var d := DigitValue(s[31]);
    assert 0 <= d <= 1;
    assert GridValue(bits) == ValueOf(s[..31], 2) * 2 + d;
    ValueOfConcat("0", Join(bits[..31]), 2);
    assert "0"[..0] == [];
    PowTwo32();
  }

  /** Set All is the largest 32-bit value, Clear is zero. */
  lemma SetAllClearAllValues()
    ensures IsNumeral(SetAll(), 2) && ValueOf(SetAll(), 2) == TwoTo32 - 1
    ensures IsNumeral(ClearAll(), 2) && ValueOf(ClearAll(), 2) == 0
  {
    ValueOfOnes(32);
    PowTwo32();
    ValueOfZeros(32, 2);
  }
}
