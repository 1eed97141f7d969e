/**
 * The converter component: four text fields (decimal, octal, hexadecimal,
 * binary) kept in step with one number, the change handler that reads an
 * edited field with `parseInt` in that field's radix and re-renders all four,
 * the 32-bit grid the binary field drives, whose buttons feed a new binary
 * text back through the same handler, and the static reference table.
 */
module Converter {
  import opened Wrappers
  import opened Radix
  import opened IntParsing
  import opened BitGrid

  /** The four input fields, named by the key the change handler receives. */
  datatype Base = Decimal | Octal | Hexadecimal | Binary

  /** The radix the change handler passes to `parseInt` for each field. */
  function RadixOf(base: Base): (radix: nat)
    ensures 2 <= radix <= 36
  {
    match base
    case Decimal => 10
    case Octal => 8
    case Hexadecimal => 16
    case Binary => 2
  }

  /** The texts shown in the four fields. */
  datatype Fields = Fields(decimal: string, octal: string, hexadecimal: string, binary: string)

  const Cleared := Fields("", "", "", "")

  /** The text of one field. */
  function Field(values: Fields, base: Base): string
  {
    match base
    case Decimal => values.decimal
    case Octal => values.octal
    case Hexadecimal => values.hexadecimal
    case Binary => values.binary
  }

  /** The decimal text of an integer reads back, in radix 10, as that integer. */
  lemma DecimalText(d: int)
    ensures ParseInt(IntToString(d), 10) == Some(d)
  {
    if d < 0 {
      ToDigitsCanonical(-d, 10);
      NegativeDecimalText(d, ToDigits(-d, 10));
    } else {
      ToDigitsCanonical(d, 10);
      ParseIntNumeral(ToDigits(d, 10), 10);
    }
  }

  /** A minus sign before the decimal digits of `-d` reads back as `d`. */
  lemma NegativeDecimalText(d: int, digits: string)
    requires d < 0 && digits != [] && IsNumeral(digits, 10) && ValueOf(digits, 10) == -d
    ensures ParseInt("-" + digits, 10) == Some(d)
  {
    ParseIntNegated(digits, 10);
  }

  /**
   * `updateAllSystems(d)` for a parsed number `d`: the decimal field shows `d`
   * itself, the other three show `d >>> 0` in octal, in upper-case
   * hexadecimal and in binary padded to 32 digits.
   */
  function Display(d: int): Fields
  {
    var u := ToUint32(d);
    Fields(IntToString(d), ToDigits(u, 8), Upper(ToDigits(u, 16)), PadStart(ToDigits(u, 2), 32, '0'))
  }

  /**
   * What the four texts of `Display(d)` mean: the decimal text reads back as
   * `d`; the octal, hexadecimal and binary texts are numerals of value
   * `d >>> 0`, without leading zeros in octal and hexadecimal, upper-case in
   * hexadecimal, exactly 32 digits in binary.
   */
  lemma DisplayMeaning(d: int)
    ensures var r := Display(d);
      && r.decimal != [] && ParseInt(r.decimal, 10) == Some(d)
      && IsNumeral(r.octal, 8) && IsCanonical(r.octal) && ValueOf(r.octal, 8) == ToUint32(d)
      && IsNumeral(r.hexadecimal, 16) && IsCanonical(r.hexadecimal) && HasNoLowerCase(r.hexadecimal)
      && ValueOf(r.hexadecimal, 16) == ToUint32(d)
      && |r.binary| == 32 && IsNumeral(r.binary, 2) && ValueOf(r.binary, 2) == ToUint32(d)
  {
    var u := ToUint32(d);
    DecimalText(d);
    ToDigitsCanonical(u, 8);
    ToDigitsCanonical(u, 16);
    UpperNumeral(ToDigits(u, 16), 16);
    ToDigitsCanonical(u, 2);
    PowTwo32();
    ToDigitsLength(u, 2, 32);
    ValueOfPadded(ToDigits(u, 2), 32, 2);
  }

  /** The fields for no number (all empty) or for a parsed number. */
  function Render(current: Option<int>): Fields
  {
    match current
    case None => Cleared
    case Some(d) => Display(d)
  }

  /**
   * The number shown after `handleChange(val, base)`: none when the text is
   * empty, the previous one when `parseInt` gives NaN, else the parsed one.
   */
  function NextNumber(current: Option<int>, val: string, base: Base): Option<int>
  {
    if val == [] then None
    else match ParseInt(val, RadixOf(base))
      case None => current
      case Some(d) => Some(d)
  }

  /**
   * The fields after `handleChange(val, base)`, from the fields alone: this
   * is what the component stores. `NextNumber` follows the number those
   * fields show instead, which the grid's buttons need; `ChangeRenders`
   * proves that the two agree.
   */
  function AfterChange(values: Fields, val: string, base: Base): Fields
  {
    if val == [] then Cleared
    else match ParseInt(val, RadixOf(base))
      case None => values
      case Some(d) => Display(d)
  }

  /** Emptying any field clears all four. */
  lemma EmptyInputClears(values: Fields, base: Base)
    ensures AfterChange(values, [], base) == Cleared
  {
  }

  /**
   * Text in which no digit of the field's radix follows the white space, the
   * sign and (radix 16) the `0x` leaves every field as it was; so does a text
   * of white space alone, which is not empty and so does not clear.
   */
  lemma NoDigitsKeepsFields(values: Fields, ws: string, sign: string, prefix: string, rest: string, base: Base)
    requires forall i :: 0 <= i < |ws| ==> IsWhitespace(ws[i])
    requires IsSign(sign) && IsPrefix(prefix, RadixOf(base))
    requires rest == [] || !IsDigit(rest[0], RadixOf(base))
    requires sign == [] && prefix == [] && rest != [] ==>
               !IsWhitespace(rest[0]) && rest[0] != '+' && rest[0] != '-'
    requires ws + sign + prefix + rest != []
    ensures AfterChange(values, ws + sign + prefix + rest, base) == values
  {
    ParseIntRejects(ws, sign, prefix, rest, RadixOf(base));
  }

  /**
   * Text that `parseInt` accepts shows the number it reads: the sign applied
   * to the value of the longest run of digits, whatever follows that run.
   */
  lemma ParsedInputDisplays(values: Fields, ws: string, sign: string, prefix: string, digits: string, rest: string, base: Base)
    requires forall i :: 0 <= i < |ws| ==> IsWhitespace(ws[i])
    requires IsSign(sign) && IsPrefix(prefix, RadixOf(base))
    requires digits != [] && IsNumeral(digits, RadixOf(base))
    requires rest == [] || !IsDigit(rest[0], RadixOf(base))
    requires base == Hexadecimal && prefix == [] ==> !HasHexPrefix(digits + rest)
    ensures AfterChange(values, ws + sign + prefix + digits + rest, base)
         == Display(ApplySign(sign, ValueOf(digits, RadixOf(base))))
  {
    ParseIntAccepts(ws, sign, prefix, digits, rest, RadixOf(base));
  }

  /** On the fields that show the number, the change handler and the number agree. */
  lemma ChangeRenders(current: Option<int>, val: string, base: Base)
    ensures AfterChange(Render(current), val, base) == Render(NextNumber(current, val, base))
  {
  }

  /**
   * Typing any displayed text back into its own field: the decimal text
   * gives back the same four fields; the octal, hexadecimal and binary texts
   * give the fields of `d >>> 0`.
   */
  lemma ReenterWrapped(prior: Fields, d: int, base: Base)
    ensures AfterChange(prior, Field(Display(d), base), base)
         == if base == Decimal then Display(d) else Display(ToUint32(d))
  {
    var r := Display(d);
    DisplayMeaning(d);
    match base
    case Decimal =>
    case Octal =>
      ParseIntNumeral(r.octal, 8);
    case Hexadecimal =>
      HexNumeralHasNoPrefix(r.hexadecimal);
      ParseIntNumeral(r.hexadecimal, 16);
    case Binary =>
      ParseIntNumeral(r.binary, 2);
  }

  /** For a number in [0, 2^32), re-entering any one of its four texts reproduces all four. */
  lemma ReenterField(prior: Fields, v: int, base: Base)
    requires 0 <= v < TwoTo32
    ensures AfterChange(prior, Field(Display(v), base), base) == Display(v)
  {
    ReenterWrapped(prior, v, base);
  }

  /**
   * The decimal field shows the number as parsed, not `d >>> 0`: the octal,
   * hexadecimal and binary texts of `d` and of `d >>> 0` are always the same,
   * and the whole display is the same exactly when `d` lies in [0, 2^32).
   */
  lemma DecimalQuirk(d: int)
    ensures Display(d).octal == Display(ToUint32(d)).octal
    ensures Display(d).hexadecimal == Display(ToUint32(d)).hexadecimal
    ensures Display(d).binary == Display(ToUint32(d)).binary
    ensures Display(d) == Display(ToUint32(d)) <==> 0 <= d < TwoTo32
  {
    var u := ToUint32(d);
    assert ToUint32(u) == u;
    DisplayMeaning(d);
    DisplayMeaning(u);
    if Display(d) == Display(u) {
      assert ParseInt(Display(d).decimal, 10) == Some(d);
      assert ParseInt(Display(u).decimal, 10) == Some(u);
    }
  }

  /** The number the bit grid shows: `d >>> 0` for a shown `d`, 0 for cleared fields. */
  function Word(current: Option<int>): (w: nat)
    ensures w < TwoTo32
  {
    match current
    case None => 0
    case Some(d) => ToUint32(d)
  }

  /**
   * The grid derived from the binary field: entry `i` is bit `31 - i` of the
   * shown number, and the grid read as a binary numeral is that number.
   */
  lemma GridOfFields(current: Option<int>)
    ensures |Render(current).binary| <= 32 && IsNumeral(Render(current).binary, 2)
    ensures GridValue(BitsOf(Render(current).binary)) == Word(current)
    ensures forall i :: 0 <= i < 32 ==> BitsOf(Render(current).binary)[i] == Bit(Word(current), 31 - i)
  {
    var b := Render(current).binary;
    if current.Some? {
      DisplayMeaning(current.value);
    }
    JoinBitsOf(b);
    forall i | 0 <= i < 32
      ensures BitsOf(b)[i] == Bit(Word(current), 31 - i)
    {
      BitsOfValue(b, i);
    }
  }

  /** A 32-digit binary text from the grid, fed back through the binary field's handler, shows its value. */
  lemma BinaryFeedback(values: Fields, current: Option<int>, bin: string)
    requires |bin| == 32 && IsNumeral(bin, 2)
    ensures ValueOf(bin, 2) < TwoTo32
    ensures AfterChange(values, bin, Binary) == Display(ValueOf(bin, 2))
    ensures NextNumber(current, bin, Binary) == Some(ValueOf(bin, 2))
  {
    PowTwo32();
    ParseIntNumeral(bin, 2);
  }

  /**
   * The text a toggle click feeds back reads as the shown 32-bit number with
   * bit `31 - index` flipped: a value in [0, 2^32), whatever number was shown.
   */
  lemma ToggleFeedback(current: Option<int>, grid: seq<int>, index: nat, bin: string)
    requires index < 32 && |Render(current).binary| <= 32 && IsNumeral(Render(current).binary, 2)
    requires grid == BitsOf(Render(current).binary)
    requires |bin| == 32 && IsNumeral(bin, 2)
    requires ValueOf(bin, 2) ==
      if grid[index] == 0 then GridValue(grid) + Pow(2, 31 - index) else GridValue(grid) - Pow(2, 31 - index)
    ensures GridValue(grid) == Word(current)
    ensures var w := Word(current);
      var v := if Bit(w, 31 - index) == 0 then w + Pow(2, 31 - index) else w - Pow(2, 31 - index);
      v == ValueOf(bin, 2) && Word(Some(v)) == v && NextNumber(current, bin, Binary) == Some(v)
  {
    var w, b := Word(current), ValueOf(bin, 2);
    GridEntry(current, grid, index);
    assert b < TwoTo32 && NextNumber(current, bin, Binary) == Some(b) by {
      BinaryFeedback(Render(current), current, bin);
    }
    assert Word(Some(b)) == b;
  }

  /** Entry `index` of the grid is bit `31 - index` of the shown number, and the grid reads as that number. */
  lemma GridEntry(current: Option<int>, grid: seq<int>, index: nat)
    requires index < 32 && |Render(current).binary| <= 32 && IsNumeral(Render(current).binary, 2)
    requires grid == BitsOf(Render(current).binary)
    ensures grid[index] == Bit(Word(current), 31 - index) && GridValue(grid) == Word(current)
  {
    GridOfFields(current);
  }

  /** One row of the reference table: the number, its binary text padded to 8 digits, octal, hexadecimal. */
  datatype ReferenceRow = ReferenceRow(decimal: string, binary: string, octal: string, hexadecimal: string)

  const ReferenceNumbers: seq<nat> := [1, 2, 4, 8, 10, 16, 32, 64, 127, 255]

  function Reference(num: nat): (row: ReferenceRow)
    ensures ParseInt(row.decimal, 10) == Some(num)
    ensures IsNumeral(row.binary, 2) && ValueOf(row.binary, 2) == num && |row.binary| >= 8
    ensures num < 256 ==> |row.binary| == 8
    ensures IsNumeral(row.octal, 8) && IsCanonical(row.octal) && ValueOf(row.octal, 8) == num
    ensures IsNumeral(row.hexadecimal, 16) && IsCanonical(row.hexadecimal) && HasNoLowerCase(row.hexadecimal)
    ensures ValueOf(row.hexadecimal, 16) == num
  {
    DecimalText(num);
    ToDigitsCanonical(num, 2);
    ToDigitsCanonical(num, 8);
    ToDigitsCanonical(num, 16);
    UpperNumeral(ToDigits(num, 16), 16);
    ValueOfPadded(ToDigits(num, 2), 8, 2);
    assert num < 256 ==> |ToDigits(num, 2)| <= 8 by {
      if num < 256 {
        assert Pow(2, 8) == 256;
        ToDigitsLength(num, 2, 8);
      }
    }
    ReferenceRow(IntToString(num), PadStart(ToDigits(num, 2), 8, '0'), ToDigits(num, 8), Upper(ToDigits(num, 16)))
  }

  /** Every number of the reference table fits its 8-digit binary column. */
  lemma ReferenceTableFits()
    ensures forall i :: 0 <= i < |ReferenceNumbers| ==> |Reference(ReferenceNumbers[i]).binary| == 8
  {
    forall i | 0 <= i < |ReferenceNumbers|
      ensures |Reference(ReferenceNumbers[i]).binary| == 8
    {
      assert ReferenceNumbers[i] <= 255;
    }
  }

  /** The last row of the reference table. */
  lemma Reference255()
    ensures Reference(255) == ReferenceRow("255", "11111111", "377", "FF")
  {
    assert ToDigits(255, 10) == "255";
    assert ToDigits(255, 2) == "11111111";
    assert ToDigits(255, 8) == "377";
    assert ToDigits(255, 16) == "ff";
    assert Upper("ff") == "FF";
  }

  /**
   * The component's state: the four field texts, the bit grid that the
   * effect derives from the binary text, and, as a ghost, the number the
   * fields show (none while they are empty).
   */
  class NumberSystemConverter {
    var values: Fields
    var bits: array<int>
    ghost var current: Option<int>

    ghost predicate Valid()
      reads this, bits
    {
      values == Render(current)
      && |values.binary| <= 32 && IsNumeral(values.binary, 2)
      && bits.Length == 32 && bits[..] == BitsOf(values.binary)
    }

    /** Four empty fields and a grid of zeros. */
    constructor ()
      ensures Valid() && values == Cleared && current == None
    {
      values := Cleared;
      current := None;
      bits := new int[32](_ => 0);
    }

    /**
     * `updateAllSystems`, followed by the effect that rebuilds the grid from
     * the new binary text; `None` stands for the empty string.
     */
    method UpdateAllSystems(decValue: Option<int>)
      modifies this
      ensures Valid() && current == decValue && values == Render(decValue) && fresh(bits)
    {
      match decValue {
        case None => values := Cleared;
        case Some(d) => values := Display(d);
      }
      current := decValue;
      GridOfFields(decValue);
      bits := DeriveBits(values.binary);
    }

    /** `handleChange` for the field `base` holding the text `val`. */
    method HandleChange(val: string, base: Base)
      requires Valid()
      modifies this
      ensures Valid()
      ensures values == AfterChange(old(values), val, base)
      ensures current == NextNumber(old(current), val, base)
    {
      if val == [] {
        UpdateAllSystems(None);
        return;
      }
      var dec := ParseInt(val, RadixOf(base));
      if dec.Some? {
        UpdateAllSystems(dec);
      }
    }

    /**
     * Clicking grid cell `index`: bit `31 - index` of the shown 32-bit number
     * flips and the other bits stay. The new number is read back from 32
     * binary digits, so it is that unsigned value itself, never a negative
     * number with the same bits.
     */
    method ToggleBitClicked(index: int)
      requires Valid() && 0 <= index < 32
      modifies this
      ensures Valid()
      ensures forall k :: 0 <= k < 32 ==>
        Bit(Word(current), k) == if k == 31 - index then 1 - Bit(Word(old(current)), k) else Bit(Word(old(current)), k)
      ensures current == Some(
        if Bit(Word(old(current)), 31 - index) == 0 then Word(old(current)) + Pow(2, 31 - index)
        else Word(old(current)) - Pow(2, 31 - index))
    {
      var bin := ToggleBit(bits, index);
      ToggleFeedback(current, bits[..], index, bin);
      HandleChange(bin, Binary);
    }

    /** Shift L: the shown number doubles, modulo 2^32. */
    method ShiftLeftClicked()
      requires Valid()
      modifies this
      ensures Valid() && current == Some((2 * Word(old(current))) % TwoTo32)
    {
      GridOfFields(current);
      var bin := ShiftLeft(bits[..]);
      ShiftLeftValue(bits[..]);
      BinaryFeedback(values, current, bin);
      HandleChange(bin, Binary);
    }

    /** Shift R: the shown number halves, rounding down. */
    method ShiftRightClicked()
      requires Valid()
      modifies this
      ensures Valid() && current == Some(Word(old(current)) / 2)
    {
      GridOfFields(current);
      var bin := ShiftRight(bits[..]);
      ShiftRightValue(bits[..]);
      BinaryFeedback(values, current, bin);
      HandleChange(bin, Binary);
    }

    /** Set All: the shown number becomes 2^32 - 1. */
    method SetAllClicked()
      requires Valid()
      modifies this
      ensures Valid() && current == Some(TwoTo32 - 1)
    {
      var bin := SetAll();
      SetAllClearAllValues();
      BinaryFeedback(values, current, bin);
      HandleChange(bin, Binary);
    }

    /** Clear: the shown number becomes 0; the fields show zeros, they are not emptied. */
    method ClearAllClicked()
      requires Valid()
      modifies this
      ensures Valid() && current == Some(0) && values == Display(0)
    {
      var bin := ClearAll();
      SetAllClearAllValues();
      BinaryFeedback(values, current, bin);
      HandleChange(bin, Binary);
    }
  }
}
