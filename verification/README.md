# Number-system converter and 32-bit manipulator, in Dafny

The component keeps four text fields: decimal, octal, hexadecimal and binary.
Editing any field calls `handleChange`. That function reads the text with
JavaScript's `parseInt` in the field's radix. An empty text clears all four
fields. A text without a leading digit (NaN) leaves them as they were. Any
other text sets all four fields through `updateAllSystems`:

- the decimal field shows the parsed number itself;
- the other three show `d >>> 0` (the number modulo 2^32) in octal, in
  upper-case hexadecimal, and in binary padded to 32 digits.

Below the fields, a grid of 32 bits is derived from the binary text. Index 0
is the most significant bit. Its buttons (toggle one bit, Shift L, Shift R,
Set All, Clear) each build a new 32-digit binary text from the grid. That
text is fed back through the binary field's handler.

The model has five modules:

- `Wrappers` holds `Option`. `None` stands for NaN.
- `Radix` holds numerals and their values, `Number.prototype.toString(radix)`,
  `toUpperCase`, `padStart`, the decimal `toString` and `>>> 0`.
- `IntParsing` holds the ECMAScript `parseInt` (section 19.2.5 of ECMA-262).
  It skips white space, reads an optional sign, strips `0x`/`0X` in radix 16,
  then reads the longest run of digits.
- `BitGrid` holds the loop that derives the grid, the toggle, and the shift,
  set and clear texts.
- `Converter` holds the field record, the pure meaning of a change (`AfterChange`,
  `NextNumber`), the reference table, and the class `NumberSystemConverter`.
  The class holds the fields and the grid array. Its methods are the change
  handler and the five buttons. Each is proved against those functions.

The class keeps the invariant `Valid()`:

- the fields are the rendering of the ghost number `current`;
- the grid array equals the grid derived from the binary field.

The grid is derived in a React effect. `UpdateAllSystems` performs that
effect inline, right after the fields change.

Two behaviours of the code are modelled as written:

- The decimal field shows the parsed number unwrapped and with its sign
  (`decValue.toString()`), not the 32-bit value. `Converter.DecimalQuirk`
  states exactly when the two differ.
- A leading `-` is accepted by `parseInt` and negates the number. The other
  three fields then show its residue modulo 2^32.

## Model

| member | source | states |
|---|---|---|
| Radix.ToUint32 | src/components/NumberSystemConverter.jsx:105 | `d >>> 0` lies in [0, 2^32), is congruent to `d` modulo 2^32, and is `d` itself when `d` is already in range |
| Radix.DigitChar | src/components/NumberSystemConverter.jsx:109-111 | the digit character written for `d` has digit value `d`, is never upper case, and is `0` exactly for `d = 0` |
| Radix.ToDigits | src/components/NumberSystemConverter.jsx:109-111 | `n.toString(radix)` for a non-negative integer; its meaning is stated by ToDigitsCanonical and ToDigitsLength |
| Radix.ToDigitsCanonical | src/components/NumberSystemConverter.jsx:109-111 | `n.toString(radix)` is a numeral of the radix with value `n`, with no leading zero and no upper-case letter |
| Radix.ToDigitsLength | src/components/NumberSystemConverter.jsx:111 | a value below `radix^k` is written with at most `k` digits (so `>>> 0` in binary never exceeds 32) |
| Radix.Upper | src/components/NumberSystemConverter.jsx:110 | `toUpperCase` keeps the length and each digit's value and leaves no lower-case letter |
| Radix.UpperNumeral | src/components/NumberSystemConverter.jsx:110 | upper-casing a numeral keeps it a numeral of the same value, canonical if it was |
| Radix.PadStart | src/components/NumberSystemConverter.jsx:111 | `padStart(len, fill)` is `len` long unless `s` is longer, ends with `s`, and holds `fill` before it |
| Radix.ValueOfPadded | src/components/NumberSystemConverter.jsx:111 | padding a numeral with leading zeros keeps its value |
| Radix.IntToString | src/components/NumberSystemConverter.jsx:108 | `decValue.toString()` on an integer: a minus sign for negatives, then the decimal digits; DecimalText proves it reads back as the integer |
| IntParsing.TrimStart | src/components/NumberSystemConverter.jsx:121-124 | parseInt drops exactly the leading white space: what it removes is white space, and what remains does not start with any |
| IntParsing.DigitPrefix | src/components/NumberSystemConverter.jsx:121-124 | the digits parseInt reads are the longest prefix made of digits of the radix |
| IntParsing.ParseInt | src/components/NumberSystemConverter.jsx:121-124 | `parseInt(val, radix)`: NaN for a radix outside [2, 36] (0 meaning the default), otherwise the signed parse after the white space; ParseIntAccepts and ParseIntRejects state its result |
| IntParsing.ParseSigned | src/components/NumberSystemConverter.jsx:121-124 | an optional `-` or `+` before the magnitude, `-` negating it; see SignedParse and ParseIntAccepts |
| IntParsing.ParseMagnitude | src/components/NumberSystemConverter.jsx:121-124 | the optional `0x` in radix 16, then the longest run of digits, NaN when there is none; see MagnitudeAccepts and MagnitudeRejects |
| IntParsing.ParseIntAccepts | src/components/NumberSystemConverter.jsx:121-124 | white space, a sign, `0x` in radix 16, digits, then a non-digit: the result is the digits' value, negated after `-` |
| IntParsing.ParseIntRejects | src/components/NumberSystemConverter.jsx:121-126 | white space, a sign, `0x` in radix 16, then no digit: the result is NaN |
| IntParsing.ParseIntNumeral | src/components/NumberSystemConverter.jsx:121-124 | a bare numeral reads back as its value |
| IntParsing.ParseIntNegated | src/components/NumberSystemConverter.jsx:121 | `-` followed by a numeral reads back as the negated value |
| IntParsing.ParseIntHexExample | src/components/NumberSystemConverter.jsx:123 | "1A" in radix 16 is 26 |
| IntParsing.ParseIntNoHexDigitExample | src/components/NumberSystemConverter.jsx:123 | "G" in radix 16 is NaN |
| IntParsing.ParseIntPrefixExample | src/components/NumberSystemConverter.jsx:121 | "12abc" in radix 10 is 12 (a prefix parse) |
| IntParsing.ParseIntNegativeExample | src/components/NumberSystemConverter.jsx:121 | "-1" in radix 10 is -1 |
| IntParsing.ParseIntHexPrefixExample | src/components/NumberSystemConverter.jsx:123 | " 0x1f" in radix 16 is 31 |
| BitGrid.BitsOf | src/components/NumberSystemConverter.jsx:7-14 | the derived grid has 32 entries, each 0 or 1 |
| BitGrid.CharBit | src/components/NumberSystemConverter.jsx:10 | `Number(c)` on a character of the binary field, which only holds `0` and `1`; Join and BitOfNumeral state how it relates a grid to its text |
| BitGrid.DeriveBits | src/components/NumberSystemConverter.jsx:6-17 | the effect's loop fills a fresh 32-entry array with the binary text's digits right-aligned and zeros to the left |
| BitGrid.Join | src/components/NumberSystemConverter.jsx:22 | `bits.join("")` is a binary numeral of the same length whose characters are the grid's entries |
| BitGrid.BitOfNumeral | src/components/NumberSystemConverter.jsx:13 | bit `k` of a binary numeral's value is its `k`-th character from the right, and 0 beyond its length |
| BitGrid.BitsOfValue | src/components/NumberSystemConverter.jsx:7-14 | grid entry `i` is bit `31 - i` of the binary field's value |
| BitGrid.JoinBitsOf | src/components/NumberSystemConverter.jsx:7-14 | joining the derived grid gives the binary text padded to 32 digits, with the same value |
| BitGrid.ToggleBit | src/components/NumberSystemConverter.jsx:19-23 | the toggled text differs from the grid at `index` only; its value flips bit `31 - index` of the grid's value and no other bit, i.e. adds or subtracts `2^(31 - index)` |
| BitGrid.ToggleMeaning | src/components/NumberSystemConverter.jsx:20-22 | toggling grid entry `index` is XOR of the grid's value with `2^(31 - index)`, in bit and in arithmetic form |
| BitGrid.ToggledBits | src/components/NumberSystemConverter.jsx:21 | two 32-digit numerals that differ only at `i` differ only in bit `31 - i` of their values |
| BitGrid.ToggleArithmetic | src/components/NumberSystemConverter.jsx:21 | two binary numerals that differ only at `i` differ in value by the weight of digit `i`, up or down according to the old digit |
| BitGrid.ShiftLeftValue | src/components/NumberSystemConverter.jsx:27 | Shift L gives a 32-digit numeral worth twice the grid's value modulo 2^32 |
| BitGrid.ShiftRightValue | src/components/NumberSystemConverter.jsx:28 | Shift R gives a 32-digit numeral worth the grid's value halved, rounded down |
| BitGrid.SetAllClearAllValues | src/components/NumberSystemConverter.jsx:25-26 | Set All is worth 2^32 - 1 and Clear is worth 0 |
| BitGrid.ShiftLeft | src/components/NumberSystemConverter.jsx:27 | the text `bits.slice(1).join("") + "0"`; ShiftLeftValue states its value |
| BitGrid.ShiftRight | src/components/NumberSystemConverter.jsx:28 | the text `"0" + bits.slice(0, 31).join("")`; ShiftRightValue states its value |
| BitGrid.SetAll | src/components/NumberSystemConverter.jsx:25 | thirty-two ones; SetAllClearAllValues states its value |
| BitGrid.ClearAll | src/components/NumberSystemConverter.jsx:26 | thirty-two zeros; SetAllClearAllValues states its value |
| Converter.RadixOf | src/components/NumberSystemConverter.jsx:121-124 | the radix each field is parsed in (10, 8, 16, 2), always in [2, 36] |
| Converter.DecimalText | src/components/NumberSystemConverter.jsx:108 | the decimal `toString` of any integer reads back, in radix 10, as that integer |
| Converter.NegativeDecimalText | src/components/NumberSystemConverter.jsx:108 | a minus sign before the decimal digits of `-d` reads back as `d` |
| Converter.Display | src/components/NumberSystemConverter.jsx:104-111 | the four fields `updateAllSystems` sets for a number; DisplayMeaning states what each one means |
| Converter.DisplayMeaning | src/components/NumberSystemConverter.jsx:104-111 | the decimal field reads back as `d`; octal and hexadecimal are canonical numerals worth `d >>> 0`, and hexadecimal is upper case; binary has exactly 32 digits worth `d >>> 0` |
| Converter.NextNumber | src/components/NumberSystemConverter.jsx:115-129 | the number shown after a change: none for empty text, the previous one on NaN, else the parsed one; ChangeRenders ties it to AfterChange |
| Converter.AfterChange | src/components/NumberSystemConverter.jsx:115-129 | the fields after a change: cleared for empty text, unchanged on NaN, else the display of the parsed number; see EmptyInputClears, NoDigitsKeepsFields and ParsedInputDisplays |
| Converter.EmptyInputClears | src/components/NumberSystemConverter.jsx:117 | an empty text clears all four fields, whatever they held |
| Converter.NoDigitsKeepsFields | src/components/NumberSystemConverter.jsx:126-128 | a non-empty text with no digit after the white space, sign and `0x` leaves every field unchanged |
| Converter.ParsedInputDisplays | src/components/NumberSystemConverter.jsx:119-127 | an accepted text shows the fields of the signed value of its leading digits |
| Converter.ChangeRenders | src/components/NumberSystemConverter.jsx:115-129 | on fields that render a number, the change handler renders the next number: empty gives none, NaN keeps the old one, otherwise the parsed one |
| Converter.ReenterWrapped | src/components/NumberSystemConverter.jsx:105-124 | re-entering a shown text in its own field: decimal gives the same fields back; octal, hexadecimal and binary give the fields of `d >>> 0` |
| Converter.ReenterField | src/components/NumberSystemConverter.jsx:105-124 | for `v` in [0, 2^32), re-entering any one of its four texts reproduces all four |
| Converter.DecimalQuirk | src/components/NumberSystemConverter.jsx:105-111 | the octal, hexadecimal and binary texts of `d` and of `d >>> 0` agree, and the whole display agrees exactly when `d` is in [0, 2^32) |
| Converter.GridOfFields | src/components/NumberSystemConverter.jsx:7-14 | the binary field fits the grid; grid entry `i` is bit `31 - i` of `d >>> 0` (0 when cleared), and the joined grid is worth `d >>> 0` |
| Converter.BinaryFeedback | src/components/NumberSystemConverter.jsx:174-176 | a 32-digit binary text fed back through the binary handler shows its value, which is below 2^32, whatever number was shown before |
| Converter.ToggleFeedback | src/components/NumberSystemConverter.jsx:19-23 | the text a toggle click feeds back reads as the shown 32-bit number with bit `31 - index` flipped (plus or minus `2^(31 - index)`), and that is the next number shown |
| Converter.GridEntry | src/components/NumberSystemConverter.jsx:7-14 | grid entry `index` is bit `31 - index` of the shown 32-bit number, and the whole grid reads as that number |
| Converter.Reference | src/components/NumberSystemConverter.jsx:190-201 | a reference row: decimal reads back as the number; binary, octal and hexadecimal are numerals worth the number; binary has 8 digits below 256; octal and hexadecimal are canonical and hexadecimal is upper case |
| Converter.ReferenceTableFits | src/components/NumberSystemConverter.jsx:190-197 | every number of the table has an 8-digit binary column |
| Converter.Reference255 | src/components/NumberSystemConverter.jsx:190-201 | the row of 255 is "255", "11111111", "377", "FF" |
| Converter.NumberSystemConverter.constructor | src/components/NumberSystemConverter.jsx:90-95 | initial state: four empty fields, no number, and the all-zero grid of line 4 |
| Converter.NumberSystemConverter.UpdateAllSystems | src/components/NumberSystemConverter.jsx:97-113 | the fields become the rendering of the given number (empty for none), and the grid is rebuilt from the new binary field |
| Converter.NumberSystemConverter.HandleChange | src/components/NumberSystemConverter.jsx:115-129 | the new fields and number are `AfterChange` and `NextNumber` of the old ones, and the invariant holds |
| Converter.NumberSystemConverter.ToggleBitClicked | src/components/NumberSystemConverter.jsx:19-23 | clicking cell `index` flips bit `31 - index` of the shown 32-bit number and keeps every other bit; the new number is exactly that unsigned value, the old one plus or minus `2^(31 - index)` |
| Converter.NumberSystemConverter.ShiftLeftClicked | src/components/NumberSystemConverter.jsx:27 | Shift L makes the shown number twice the old 32-bit value, modulo 2^32 |
| Converter.NumberSystemConverter.ShiftRightClicked | src/components/NumberSystemConverter.jsx:28 | Shift R makes the shown number the old 32-bit value halved |
| Converter.NumberSystemConverter.SetAllClicked | src/components/NumberSystemConverter.jsx:25 | Set All makes the shown number 2^32 - 1 |
| Converter.NumberSystemConverter.ClearAllClicked | src/components/NumberSystemConverter.jsx:26 | Clear makes the shown number 0: the fields show zeros and are not emptied |

## Left out

- Numbers are exact integers. IEEE-754 rounding of long digit runs is not modelled, and neither is the exponent notation `toString` uses from 10^21 on.
- Overflow to Infinity is not modelled. A digit run worth 2^1024 or more (about 309 decimal digits) makes `parseInt` return Infinity, so the decimal field shows "Infinity" and, since `Infinity >>> 0` is 0, the other three fields show 0. The model instead shows the exact integer and its residue modulo 2^32.
- `>>> 0` on NaN and on fractions is not modelled: `parseInt` never returns a fraction, and NaN never reaches `updateAllSystems`.
- `-0`: `parseInt("-0")` is negative zero in JavaScript. Its `toString()` is "0", like the model's 0, so only the distinction itself is not modelled.
- `BitGrid.DeriveBits`: binary texts longer than 32 characters are excluded by its precondition. The component only ever passes its own binary field, which has exactly 32 digits or is empty.
- `BitGrid.DeriveBits`: `Number(c)` on characters other than `0` and `1` is not modelled, for the same reason.
- The check `decValue === null || isNaN(decValue)` in `updateAllSystems` is not modelled as its own branch. `handleChange` only calls it with `""` or a parsed number, so `Option` covers both calls.
- React state hooks, the effect scheduler and rendering are not modelled. The effect that rebuilds the grid runs inline in `UpdateAllSystems`.
- The JSX layout, the styling and the bit-position labels (lines 30 and 43) are not modelled. They do not affect any value.
