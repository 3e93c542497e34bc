# Number system converter

A model of `Converter`, a Java utility class that converts between three
representations of non-negative numbers:

- decimal, a Java `int`;
- binary strings such as `"0b1011"`;
- hexadecimal strings with upper-case digits, such as `"0x1F"`.

The class has 14 methods under 11 names: binaryToHex, hexToBinary and
hexToDecimal each come as a public wrapper and a private recursive overload that
takes the string's length. Each method is modelled by a Dafny function. Some are
split into a wrapper and a helper:

- binaryToDecimal is `BinaryToDecimal` (the null check) plus `BinaryToDecimalRec`
  (the recursion) plus `BinaryDigit` (its size-3 base case).
- The private hexToDecimal is `HexToDecimalRec` plus `HexDigitCase`, its size-3 switch.
- decimalToHexRec is `DecimalToHexRec` plus `HexDigitText`, its `switch (decimal % 16)`.

The functions follow the Java recursion and check the same conditions in the same
order. On strings whose characters all lie in the Basic Multilingual Plane, they
report the same errors (see "## Left out" for other strings). The proofs then
relate the conversions to the positional value of a numeral, and to one another.

Files:

- `results.dfy`: `Option` (a Java reference that may be `null`) and `Result`. An
  `Err` carries which exception Java throws: `IllegalArgument`, `NumberFormat` or
  `Arithmetic`.
- `ints.dfy`: the range of Java's `int` and its two's-complement wrap-around
  (`Wrap`). Wrapping part way through a sum does not change the final wrapped
  result (`WrapAdd`).
- `numerals.dfy`: the digit alphabet `0-9A-F` and the positional value `Value(base, s)`.
  It also holds the facts the proofs rest on:
  - digit strings of equal length and equal value are equal;
  - a number has only one numeral without leading zeros;
  - left-padding with zeros keeps the value.
- `converter.dfy`: the 14 methods of `Converter`. A binary or hexadecimal
  parser returns `Err` exactly on the inputs where Java throws, and otherwise
  returns the positional value of the digits. Each contract says which
  exception is thrown and when.
- `roundtrips.dfy`: the conversions undo one another.
  - A printer followed by its parser is the identity on every non-negative `int`.
  - A parser followed by its printer is the identity on numerals without leading zeros.
  - `binaryToHex` and `hexToBinary` are inverse up to zero padding and length limits.
  - The two parsers agree across bases.
  - The overflow guard of `hexToDecimal` is exact.
- `examples.dfy`: concrete conversions, each derived from the contracts.

The accepted inputs, as the code defines them:

- A binary string is `"0b"` followed by 1 to 31 binary digits (length 3 to 33).
  A single digit, as in `"0b1"`, is accepted.
- A hexadecimal string is `"0x"` followed by 1 to 8 upper-case hex digits
  (length 3 to 10).
- `hexToDecimal` throws `ArithmeticException` before it looks at any digit. It does
  so when the string has length 10 (8 digits) and its first digit character has a
  code above 55 (`'7'`).
  - For well-formed strings, this happens exactly when the value exceeds
    0x7FFFFFFF (`HexToDecimalOverflow`).
  - A malformed string such as `"0xG0000000"` also gets `Arithmetic`, not
    `NumberFormat`.
- `hexToBinary` accepts 8 hex digits. The resulting 32 binary digits are one more
  than `binaryToDecimal` and `binaryToHex` accept (`HexBinaryHex`, `HexBinaryAgree`).

## Model

| member | source | states |
|---|---|---|
| Converter.BinaryToDecimal | Converter.java:17-45 | null throws IllegalArgument. Otherwise the result is an `int` exactly when the string is "0b" and 1 to 31 binary digits, and NumberFormat otherwise. The `int` is the non-negative positional value of the digits. |
| Converter.BinaryToDecimalRec | Converter.java:24-44 | The recursion on all but the last character succeeds exactly on well-formed binary strings. For k digits the value lies below 2^k and equals the positional value. Line 44 is evaluated left to right with wrapping, as Java does. |
| Converter.BinaryDigit | Converter.java:35-41 | The base case succeeds exactly on a binary digit and returns that digit's value. Anything else is NumberFormat. |
| Ints.WrapAdd | Converter.java:44 | In Java's wrapping `int` arithmetic, wrapping an intermediate result and then adding gives the same `int` as wrapping the whole sum once. So an overflow part way through line 44 does not change its result. |
| Converter.WrapCancels | Converter.java:44 | Java evaluates `t + c - '0'` for a digit character `c` left to right: first it wraps `t`, then `t + c`, then the subtraction. The result is `t` plus the digit whenever that sum is an `int`, even if `t + c` overflows. |
| Converter.BinaryStep | Converter.java:44 | Line 44 is evaluated as Java does: `rec * 2` fits in an `int`; `+ charAt(size - 1)` may overflow (31 ones: 0x3FFFFFFF * 2 + 49); `- '0'` wraps back. The result is the value of the whole digit string, below 2^k. |
| Converter.BinaryToHex | Converter.java:55-79 | null throws IllegalArgument. A result exists exactly for well-formed binary strings, and otherwise NumberFormat. It is "0x" and ceil(k/4) hex digits of the same value as the k binary digits. |
| Converter.PadLength | Converter.java:73-78 | After padding, k digits form exactly ceil(k/4) groups of four. No zeros are added when k is already a multiple of 4. |
| Converter.PaddedDigits | Converter.java:75 | Zeros in front of the digits change neither their validity nor their value. The digits of the padded sequence are the zeros followed by the original digits. |
| Converter.Pad | Converter.java:103-111 | pad gives "0b", then the number of zeros that brings `size` up to the next multiple of 4, then the digits. |
| Converter.BinaryToHexRec | Converter.java:87-95 | For a whole number of four-digit groups, it succeeds exactly when all are binary digits, and otherwise NumberFormat. It gives one hex digit per group with the same total value. |
| Converter.NibbleSplit | Converter.java:94 | The digits split into the leading groups and the last four. The value is 16 times that of the leading groups plus that of the last four. |
| Converter.BinTableConvert | Converter.java:119-159 | The table succeeds exactly on four binary digits, and otherwise NumberFormat. It gives the hex digit whose value is the group's value. |
| Converter.NibbleCases | Converter.java:122-158 | Every group of four binary digits is one of the sixteen table entries. |
| Converter.DecimalToBinary | Converter.java:168-182 | null exactly for a negative argument. Otherwise a well-formed binary string whose digits have no leading zero (or are "0") and whose value is the argument. |
| Converter.DecimalToBinaryRec | Converter.java:190-197 | "0b" followed by binary digits of value `decimal`. Nothing follows "0b" exactly for zero, and otherwise the first digit is not zero. |
| Converter.IntToString | Converter.java:196 | Java's decimal text of a one-digit `int` is a single character with that digit value. |
| Converter.CanonicalFits | Converter.java:168-220 | A numeral without leading zeros of a non-negative `int` has at most 31 binary or 8 hex digits. With 8 hex digits, the first digit is at most 7. |
| Converter.DecimalToHex | Converter.java:206-220 | null exactly for a negative argument. Otherwise a well-formed hexadecimal string without leading zeros whose value is the argument. With 8 digits it starts with '0' to '7', so `hexToDecimal` accepts it. |
| Converter.DecimalToHexRec | Converter.java:228-266 | "0x" followed by hex digits of value `decimal`, with no leading zero. The `default` branch that returns "" is never taken for a non-negative argument. |
| Converter.HexDigitText | Converter.java:237-264 | The switch gives text exactly for remainders 0 to 15. The text is one hex digit with that value. |
| Converter.HexToBinary | Converter.java:276-292 | null throws IllegalArgument. A result exists exactly for well-formed hexadecimal strings, and otherwise NumberFormat. It is "0b" and four binary digits per hex digit, of the same value. |
| Converter.HexToBinaryRec | Converter.java:300-306 | It succeeds exactly when every character after the prefix is a hex digit, and otherwise NumberFormat. It gives four binary digits per hex digit with the same total value. |
| Converter.AppendNibble | Converter.java:305 | Appending a four-digit group keeps the "0b" prefix and the digits valid. It multiplies the value by 16 and adds the group's value. |
| Converter.HexTableConvert | Converter.java:313-353 | The table succeeds exactly on an upper-case hex digit, and otherwise NumberFormat. It gives four binary digits of the same value. |
| Converter.HexToDecimal | Converter.java:365-383 | null throws IllegalArgument. A bad length or prefix throws NumberFormat. Eight digits with a first character above '7' throw Arithmetic whatever the digits are. Otherwise the result exists exactly when all digits are hex digits (else NumberFormat) and is their positional value. |
| Converter.HexFitsInInt | Converter.java:379-382 | Up to 8 hex digits that pass the guard are worth at most 0x7FFFFFFF. |
| Converter.HexToDecimalRec | Converter.java:392-426 | It succeeds exactly when every character after "0x" is a hex digit, and otherwise NumberFormat. When the value fits in an `int`, the result is that value. |
| Converter.HexStep | Converter.java:420-423 | When the whole value fits in an `int`, wrapping 16 times the value of the leading digits and then adding the last digit gives the whole value. |
| Converter.HexDigitCase | Converter.java:397-416 | The base case succeeds exactly on an upper-case hex digit and returns its value. Anything else is NumberFormat. |
| RoundTrips.DecimalBinaryDecimal | Converter.java:168-197 | binaryToDecimal(decimalToBinary(n)) is n for every non-negative `int`. For a negative n the null result makes binaryToDecimal throw IllegalArgument. |
| RoundTrips.DecimalHexDecimal | Converter.java:206-266 | hexToDecimal(decimalToHex(n)) is n for every non-negative `int`, and never Arithmetic. A negative n gives IllegalArgument. |
| RoundTrips.BinaryDecimalBinary | Converter.java:17-45 | decimalToBinary(binaryToDecimal(b)) is b for every well-formed binary string whose digits have no leading zero. |
| RoundTrips.HexDecimalHex | Converter.java:365-426 | decimalToHex(hexToDecimal(h)) is h for every well-formed hexadecimal string without leading zeros that passes the overflow guard. |
| RoundTrips.HexToDecimalOverflow | Converter.java:362-380 | On well-formed hexadecimal strings, hexToDecimal throws Arithmetic exactly when the value exceeds 0x7FFFFFFF. Otherwise it returns the value. |
| RoundTrips.LeadingDigitBound | Converter.java:379-380 | Eight hex digits starting with a character above '7' are worth more than 0x7FFFFFFF, so the guard rejects only values that do not fit. |
| RoundTrips.BinaryToHexIsHex | Converter.java:55-95 | binaryToHex of a well-formed binary string is a well-formed hexadecimal string of ceil(k/4) digits. |
| RoundTrips.HexToBinaryIsBinary | Converter.java:276-306 | hexToBinary of a well-formed hexadecimal string has a multiple of four digits. It is a well-formed binary string exactly when there are at most 7 hex digits. |
| RoundTrips.BinaryHexBinary | Converter.java:55-111 | hexToBinary(binaryToHex(b)) is b with its digits left-padded with zeros to a multiple of four. |
| RoundTrips.HexBinaryHex | Converter.java:276-306 | binaryToHex(hexToBinary(h)) is h for 1 to 7 hex digits. For 8 digits it is NumberFormat. |
| RoundTrips.BinaryHexAgree | Converter.java:55-95 | hexToDecimal(binaryToHex(b)) equals binaryToDecimal(b) on every well-formed binary string. |
| RoundTrips.HexBinaryAgree | Converter.java:276-306 | binaryToDecimal(hexToBinary(h)) equals hexToDecimal(h) for 1 to 7 hex digits. For 8 digits it is NumberFormat. |
| RoundTrips.HexTableBinTable | Converter.java:313-353 | binTableConvert undoes hexTableConvert on every hex digit. |
| RoundTrips.BinTableHexTable | Converter.java:119-159 | hexTableConvert undoes binTableConvert on every four-digit binary group. |
| Examples.ErrorExamples | Converter.java:365-383 | Concrete errors: null, too short, a bad digit, a negative argument, and Arithmetic for "0x80000000" and for the malformed "0xG0000000". |
| Examples.DecimalToBinaryExample | Converter.java:168-197 | decimalToBinary(5) is "0b101". |
| Examples.DecimalToHexExample | Converter.java:206-266 | decimalToHex(255) is "0xFF". |
| Examples.HexToDecimalExample | Converter.java:392-426 | hexToDecimal("0x1F") is 31. |

## Left out

- Java's `null` is an `Option` argument or result. A thrown exception is an `Err`
  naming the exception class. Exception messages are not modelled.
- The unused local `number` in decimalToBinary and decimalToHex (lines 175 and
  213) has no counterpart.
- BinTableConvert returns the hex digit as a `char` rather than a one-character `String`.
- The `size` parameter of the private binaryToHex, hexToBinary and hexToDecimal
  is always the length of the string passed with it, so the model uses the
  string's length. `Pad` keeps its `size` parameter.
- DecimalToBinaryRec and DecimalToHexRec take a `nat`. The private Java methods
  are only called with positive values. For those values, Java's truncating `/`
  and `%` agree with Dafny's.
- Converter.HexToDecimalRec: the value is stated only when it fits in an `int`.
  When it does not, the Java arithmetic wraps. hexToDecimal's guard means this
  never reaches a caller, but the wrapped value itself is not described.
- Characters outside the Basic Multilingual Plane, and lone surrogates. A Dafny
  `char` is a Unicode scalar value, so a character such as U+1F600 is one element
  of a string, where a Java `String` holds two UTF-16 units. A lone surrogate,
  which a Java string may contain, cannot be written at all. For such input the
  length checks and the guard at line 379 can pick a different exception. For
  example, Java gives "0x" + U+1F600 + "000000" length 10 and `charAt(2)` 0xD83D
  (above 55), so it throws ArithmeticException. The model sees length 9 and
  returns NumberFormat. On other strings, a character comparison such as
  `charAt(2) > 55` compares codes exactly as Java does.
