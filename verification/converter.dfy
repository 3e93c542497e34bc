/**
 * The six public conversions of the `Converter` class and their private helpers.
 * Each of its 14 methods is a function here, some split into a wrapper and a
 * helper, following the source's recursion, checks and error order. A Java
 * `null` argument is `None`; a thrown exception is `Err`.
 */
module Converter {
  import opened Results
  import opened Ints
  import opened Numerals

  /** `s` starts with '0' and the base letter `tag`: "0b" for binary, "0x" for hexadecimal. */
  predicate Prefixed(s: string, tag: char)
  {
    |s| >= 2 && s[0] == '0' && s[1] == tag
  }

  /** Length 3..33 and the prefix "0b": the checks every binary entry point starts with. */
  predicate HasBinaryShape(s: string)
  {
    3 <= |s| <= 33 && Prefixed(s, 'b')
  }

  /** Length 3..10 and the prefix "0x": the checks every hexadecimal entry point starts with. */
  predicate HasHexShape(s: string)
  {
    3 <= |s| <= 10 && Prefixed(s, 'x')
  }

  /** A well-formed binary string: "0b" followed by 1 to 31 binary digits. */
  predicate IsBinaryString(s: string)
  {
    HasBinaryShape(s) && AllDigits(2, s[2..])
  }

  /** A well-formed hexadecimal string: "0x" followed by 1 to 8 upper-case hex digits. */
  predicate IsHexString(s: string)
  {
    HasHexShape(s) && AllDigits(16, s[2..])
  }

  /** The shortest digit string of its value: no leading zero, and "0" for zero. */
  predicate Shortest(base: nat, d: string)
  {
    Canonical(base, d) || d == "0"
  }

  lemma PowFacts()
    ensures Pow(2, 4) == 16
    ensures Pow(2, 31) == MaxInt + 1
    ensures Pow(16, 7) == 0x1000_0000
    ensures Pow(16, 8) == 0x1_0000_0000
  {
    assert Pow(2, 8) == 256;
    PowAdd(2, 8, 8);
    PowAdd(2, 16, 8);
    PowAdd(2, 24, 7);
    assert Pow(2, 7) == 128;
    assert Pow(16, 4) == 0x1_0000;
    assert Pow(16, 3) == 0x1000;
    PowAdd(16, 4, 3);
    PowAdd(16, 4, 4);
  }

  // ---------------------------------------------------------------------------
  // binaryToDecimal
  // ---------------------------------------------------------------------------

  /**
   * binaryToDecimal: the positional value of the digits after "0b". A null
   * argument throws IllegalArgument; a bad length, prefix or digit throws NumberFormat.
   */
  function BinaryToDecimal(binary: Option<string>): (r: Result<Int32>)
    ensures binary.None? ==> r == Err(IllegalArgument)
    ensures binary.Some? ==> (r.Ok? <==> IsBinaryString(binary.value))
    ensures binary.Some? && r.Err? ==> r.error == NumberFormat
    ensures r.Ok? ==> r.value >= 0 && r.value == Value(2, binary.value[2..])
  {
    match binary
    case None => Err(IllegalArgument)
    case Some(s) => BinaryToDecimalRec(s)
  }

  /**
   * The body of binaryToDecimal after its null check. Each level repeats the
   * length, prefix and last-digit checks, then converts all but the last digit.
   * Java evaluates `rec * 2 + charAt(size - 1) - '0'` left to right in wrapping
   * `int` arithmetic, so each of the three steps is written with `Wrap`. The
   * middle sum can exceed the `int` range (31 ones: 0x3FFFFFFF * 2 + 49), but
   * `BinaryStep` shows the wrap-around cancels and the result is the value.
   */
  function BinaryToDecimalRec(s: string): (r: Result<Int32>)
    decreases |s|
    ensures r.Ok? <==> IsBinaryString(s)
    ensures r.Err? ==> r.error == NumberFormat
    ensures r.Ok? ==> 0 <= r.value < Pow(2, |s| - 2) && r.value == Value(2, s[2..])
  {
    var size := |s|;
    if size <= 2 || size > 33 then Err(NumberFormat)
    else if s[0] != '0' || s[1] != 'b' then Err(NumberFormat)
    else if s[size - 1] != '0' && s[size - 1] != '1' then Err(NumberFormat)
    else if size == 3 then
      BinaryDigit(s[2])
    else
      AppendDigit(2, s);
      match BinaryToDecimalRec(s[..size - 1])
      case Err(e) => Err(e)
      case Ok(v) =>
        BinaryStep(s, v);
        Ok(Wrap(Wrap(Wrap(v * 2) + s[size - 1] as int) - '0' as int))
  }

  /** The base case at size 3: the single digit's value, or NumberFormat. */
  function BinaryDigit(c: char): (r: Result<Int32>)
    ensures r.Ok? <==> IsDigit(2, c)
    ensures r.Ok? ==> r.value == DigitValue(c)
    ensures r.Err? ==> r.error == NumberFormat
  {
    if c == '0' || c == '1' then Ok(c as int - '0' as int) else Err(NumberFormat)
  }

  /** Splitting off the last digit of the digits after a two-character prefix. */
  lemma AppendDigit(base: nat, s: string)
    requires |s| >= 3
    ensures s[2..] == s[..|s| - 1][2..] + [s[|s| - 1]]
    ensures AllDigits(base, s[2..]) <==> AllDigits(base, s[..|s| - 1][2..]) && IsDigit(base, s[|s| - 1])
    ensures Value(base, s[2..]) == Value(base, s[..|s| - 1][2..]) * base + DigitValue(s[|s| - 1])
  {
    var front, c := s[..|s| - 1][2..], s[|s| - 1];
    assert s[2..] == front + [c];
    ValueSnoc(base, front, c);
    if AllDigits(base, front) && IsDigit(base, c) {
      AllDigitsConcat(base, front, [c]);
    }
  }

  /**
   * One step of binaryToDecimal's evaluation, as Java performs it: doubling the
   * value of the leading digits fits in an `int`, adding the last character's
   * code may overflow, and subtracting '0' wraps back, so the three wrapped steps
   * give the value of the whole digit string, which lies below `2^(digits)`.
   */
  lemma BinaryStep(s: string, v: int)
    requires 4 <= |s| <= 33 && IsDigit(2, s[|s| - 1])
    requires 0 <= v < Pow(2, |s| - 3) && v == Value(2, s[..|s| - 1][2..])
    ensures Wrap(Wrap(Wrap(v * 2) + s[|s| - 1] as int) - '0' as int)
         == v * 2 + DigitValue(s[|s| - 1])
         == Value(2, s[2..])
    ensures v * 2 + DigitValue(s[|s| - 1]) < Pow(2, |s| - 2)
  {
    var c := s[|s| - 1] as int;
    AppendDigit(2, s);
    assert Pow(2, |s| - 2) == 2 * Pow(2, |s| - 3);
    PowMonotone(2, |s| - 2, 31);
    PowFacts();
    WrapCancels(v * 2, c - '0' as int);
  }

  /**
   * `Wrap(Wrap(Wrap(t) + c) - '0')` for a digit character `c` is `t` plus the
   * digit, whenever that sum is an `int`: the overflow of the middle step cancels.
   */
  lemma WrapCancels(t: int, digit: int)
    requires 0 <= t && 0 <= digit && t + digit <= MaxInt
    ensures Wrap(Wrap(Wrap(t) + (digit + '0' as int)) - '0' as int) == t + digit
  {
    WrapInRange(t);
    WrapAdd(t + digit + '0' as int, -('0' as int));
    WrapInRange(t + digit);
  }

  // ---------------------------------------------------------------------------
  // binaryToHex
  // ---------------------------------------------------------------------------

  /** How many zeros `pad` puts in front of `size` digits to reach a multiple of 4. */
  function PadWidth(size: int): nat
  {
    (4 - size % 4) % 4
  }

  /**
   * binaryToHex: the same value written in hexadecimal, one hex digit per group of
   * four binary digits after left-padding with zeros to a multiple of four; leading
   * zero groups are kept. Null throws IllegalArgument; a bad length, prefix or digit
   * throws NumberFormat.
   */
  function BinaryToHex(binary: Option<string>): (r: Result<string>)
    ensures binary.None? ==> r == Err(IllegalArgument)
    ensures binary.Some? ==> (r.Ok? <==> IsBinaryString(binary.value))
    ensures binary.Some? && r.Err? ==> r.error == NumberFormat
    ensures r.Ok? ==>
      var digits := binary.value[2..];
      && |r.value| == 2 + (|digits| + 3) / 4
      && Prefixed(r.value, 'x')
      && AllDigits(16, r.value[2..])
      && Value(16, r.value[2..]) == Value(2, digits)
  {
    match binary
    case None => Err(IllegalArgument)
    case Some(s) =>
      var size := |s|;
      if size <= 2 || size > 33 then Err(NumberFormat)
      else if s[0] != '0' || s[1] != 'b' then Err(NumberFormat)
      else
        var sequence := if (size - 2) % 4 != 0 then Pad(s[2..], size - 2) else "";
        PadLength(size - 2);
        if sequence == "" then
          BinaryToHexRec(s)
        else
          PaddedDigits(s[2..], PadWidth(size - 2));
          BinaryToHexRec(sequence)
  }

  /** Padding `k >= 1` digits gives `ceil(k / 4)` whole groups of four. */
  lemma PadLength(k: int)
    requires k >= 1
    ensures (k + PadWidth(k)) % 4 == 0
    ensures (k + PadWidth(k)) / 4 == (k + 3) / 4
    ensures 4 * ((k + PadWidth(k)) / 4) == k + PadWidth(k)
    ensures k % 4 == 0 ==> PadWidth(k) == 0
  {
  }

  /** The digits of a padded sequence are valid exactly when the original ones are. */
  lemma PaddedDigits(digits: string, n: nat)
    ensures ("0b" + Zeros(n) + digits)[2..] == Zeros(n) + digits
    ensures AllDigits(2, Zeros(n) + digits) <==> AllDigits(2, digits)
    ensures Value(2, Zeros(n) + digits) == Value(2, digits)
  {
    assert ("0b" + Zeros(n) + digits)[2..] == Zeros(n) + digits;
    var z := Zeros(n) + digits;
    if AllDigits(2, z) {
      forall i | 0 <= i < |digits|
        ensures IsDigit(2, digits[i])
      {
        assert digits[i] == z[n + i];
      }
    }
    ValueLeadingZeros(2, n, digits);
  }

  /**
   * pad: prefix "0b" to `binary` after putting zeros in front of it until `size`
   * (its length, at the call site) reaches a multiple of 4.
   */
  function Pad(binary: string, size: int): (r: string)
    decreases PadWidth(size)
    ensures r == "0b" + Zeros(PadWidth(size)) + binary
  {
    if size % 4 == 0 then
      "0b" + binary
    else
      assert Zeros(PadWidth(size + 1)) + "0" == Zeros(PadWidth(size));
      Pad("0" + binary, size + 1)
  }

  /**
   * The private binaryToHex(binary, size): converts the last four digits with the
   * table and recurses on the rest, building "0x" and the hex digits in order.
   * Java passes `size` alongside the string; it is always the string's length.
   */
  function BinaryToHexRec(b: string): (r: Result<string>)
    requires |b| >= 2 && (|b| - 2) % 4 == 0
    decreases |b|
    ensures r.Ok? <==> AllDigits(2, b[2..])
    ensures r.Err? ==> r.error == NumberFormat
    ensures r.Ok? ==>
      && |r.value| == 2 + (|b| - 2) / 4
      && Prefixed(r.value, 'x')
      && AllDigits(16, r.value[2..])
      && Value(16, r.value[2..]) == Value(2, b[2..])
  {
    var size := |b|;
    if size == 2 then
      Ok("0x")
    else
      NibbleSplit(b);
      match BinaryToHexRec(b[..size - 4])
      case Err(e) => Err(e)
      case Ok(front) =>
        match BinTableConvert(b[size - 4..])
        case Err(e) => Err(e)
        case Ok(c) =>
          AppendDigit(16, front + [c]);
          assert (front + [c])[..|front|] == front;
          Ok(front + [c])
  }

  /** Splitting off the last four digits of the digits after a two-character prefix. */
  lemma NibbleSplit(b: string)
    requires |b| >= 6
    ensures AllDigits(2, b[2..]) <==> AllDigits(2, b[..|b| - 4][2..]) && AllDigits(2, b[|b| - 4..])
    ensures Value(2, b[2..]) == Value(2, b[..|b| - 4][2..]) * 16 + Value(2, b[|b| - 4..])
  {
    var front, last := b[..|b| - 4][2..], b[|b| - 4..];
    assert b[2..] == front + last;
    ValueConcat(2, front, last);
    PowFacts();
    if AllDigits(2, front) && AllDigits(2, last) {
      AllDigitsConcat(2, front, last);
    }
  }

  /**
   * binTableConvert: the hexadecimal digit of a four-digit binary group, or
   * NumberFormat for anything that is not four binary digits.
   */
  function BinTableConvert(binarySeq: string): (r: Result<char>)
    ensures r.Ok? <==> |binarySeq| == 4 && AllDigits(2, binarySeq)
    ensures r.Err? ==> r.error == NumberFormat
    ensures r.Ok? ==> IsHexDigit(r.value) && DigitValue(r.value) == Value(2, binarySeq)
  {
    NibbleValue(binarySeq);
    NibbleCases(binarySeq);
    match binarySeq
    case "0000" => Ok('0')
    case "0001" => Ok('1')
    case "0010" => Ok('2')
    case "0011" => Ok('3')
    case "0100" => Ok('4')
    case "0101" => Ok('5')
    case "0110" => Ok('6')
    case "0111" => Ok('7')
    case "1000" => Ok('8')
    case "1001" => Ok('9')
    case "1010" => Ok('A')
    case "1011" => Ok('B')
    case "1100" => Ok('C')
    case "1101" => Ok('D')
    case "1110" => Ok('E')
    case "1111" => Ok('F')
    case _ => Err(NumberFormat)
  }

  /** The value of a four-character group, digit by digit. */
  lemma NibbleValue(n: string)
    ensures |n| == 4 ==>
      (AllDigits(2, n) <==> IsDigit(2, n[0]) && IsDigit(2, n[1]) && IsDigit(2, n[2]) && IsDigit(2, n[3]))
    ensures |n| == 4 ==>
      Value(2, n) == 8 * DigitValue(n[0]) + 4 * DigitValue(n[1]) + 2 * DigitValue(n[2]) + DigitValue(n[3])
  {
    if |n| == 4 {
      assert AllDigits(2, n) <==> IsDigit(2, n[0]) && IsDigit(2, n[1]) && IsDigit(2, n[2]) && IsDigit(2, n[3]);
      assert n[..3][..2] == n[..2] && n[..2][..1] == n[..1] && n[..1][..0] == [];
      assert Value(2, n[..1]) == DigitValue(n[0]);
      assert Value(2, n[..2]) == 2 * DigitValue(n[0]) + DigitValue(n[1]);
      assert Value(2, n[..3]) == 4 * DigitValue(n[0]) + 2 * DigitValue(n[1]) + DigitValue(n[2]);
      assert n[..4] == n;
    }
  }

  /** A four-digit binary group is one of the sixteen table entries. */
  lemma NibbleCases(n: string)
    ensures |n| == 4 && AllDigits(2, n) ==>
      || n == "0000" || n == "0001" || n == "0010" || n == "0011"
      || n == "0100" || n == "0101" || n == "0110" || n == "0111"
      || n == "1000" || n == "1001" || n == "1010" || n == "1011"
      || n == "1100" || n == "1101" || n == "1110" || n == "1111"
  {
    if |n| == 4 && AllDigits(2, n) {
      assert IsDigit(2, n[0]) && IsDigit(2, n[1]) && IsDigit(2, n[2]) && IsDigit(2, n[3]);
      assert n == [n[0], n[1], n[2], n[3]];
    }
  }

  // ---------------------------------------------------------------------------
  // decimalToBinary
  // ---------------------------------------------------------------------------

  /**
   * decimalToBinary: null for a negative argument; otherwise "0b" followed by the
   * shortest binary numeral of the argument ("0b0" for zero), at most 31 digits.
   */
  function DecimalToBinary(decimal: Int32): (r: Option<string>)
    ensures r.None? <==> decimal < 0
    ensures r.Some? ==>
      && IsBinaryString(r.value)
      && Shortest(2, r.value[2..])
      && Value(2, r.value[2..]) == decimal
  {
    if decimal < 0 then None
    else if decimal == 0 then Some("0b0")
    else
      var r := DecimalToBinaryRec(decimal);
      CanonicalFits(2, r[2..], decimal);
      Some(r)
  }

  /**
   * decimalToBinaryRec: "0b" followed by the remainders of repeated halving, the
   * last remainder first. Java's `"..." + (decimal % 2)` appends the digit's text.
   */
  function DecimalToBinaryRec(decimal: nat): (r: string)
    ensures Prefixed(r, 'b')
    ensures AllDigits(2, r[2..]) && Value(2, r[2..]) == decimal
    ensures |r| == 2 <==> decimal == 0
    ensures decimal > 0 ==> Canonical(2, r[2..])
  {
    if decimal == 0 then
      "0b"
    else
      var front := DecimalToBinaryRec(decimal / 2);
      var r := front + IntToString(decimal % 2);
      AppendDigit(2, r);
      assert r[..|r| - 1] == front;
      r
  }

  /** Java's decimal text of a one-digit `int`. */
  function IntToString(d: int): (r: string)
    requires 0 <= d <= 9
    ensures |r| == 1 && IsHexDigit(r[0]) && DigitValue(r[0]) == d
  {
    [('0' as int + d) as char]
  }

  /**
   * A numeral without leading zeros of a non-negative `int` has at most 31 binary
   * or 8 hex digits, and a hex numeral of 8 digits starts with a digit from 0 to 7.
   */
  lemma CanonicalFits(base: nat, d: string, n: int)
    requires base == 2 || base == 16
    requires Canonical(base, d) && Value(base, d) == n && n <= MaxInt
    ensures base == 2 ==> |d| <= 31
    ensures base == 16 ==> |d| <= 8
    ensures base == 16 && |d| == 8 ==> DigitValue(d[0]) <= 7
  {
    CanonicalBounds(base, d);
    PowFacts();
    if base == 2 && |d| > 31 {
      PowMonotone(2, 31, |d| - 1);
    }
    if base == 16 && |d| > 8 {
      PowMonotone(16, 8, |d| - 1);
    }
    if base == 16 && |d| == 8 {
      ValueLeading(16, d);
    }
  }

  // ---------------------------------------------------------------------------
  // decimalToHex
  // ---------------------------------------------------------------------------

  /**
   * decimalToHex: null for a negative argument; otherwise "0x" followed by the
   * shortest upper-case hexadecimal numeral of the argument ("0x0" for zero). It
   * has at most 8 digits, and 8 digits only with a leading digit from '0' to '7'.
   */
  function DecimalToHex(decimal: Int32): (r: Option<string>)
    ensures r.None? <==> decimal < 0
    ensures r.Some? ==>
      && IsHexString(r.value)
      && Shortest(16, r.value[2..])
      && Value(16, r.value[2..]) == decimal
      && (|r.value| == 10 ==> '0' <= r.value[2] <= '7')
  {
    if decimal < 0 then None
    else if decimal == 0 then Some("0x0")
    else
      var r := DecimalToHexRec(decimal);
      CanonicalFits(16, r[2..], decimal);
      Some(r)
  }

  /**
   * decimalToHexRec: "0x" followed by the remainders of repeated division by 16,
   * the last remainder first, each written by the `switch` of `HexDigitText`.
   * Its `default` branch returns "" alone; the contract shows it is never taken.
   */
  function DecimalToHexRec(decimal: nat): (r: string)
    ensures Prefixed(r, 'x')
    ensures AllDigits(16, r[2..]) && Value(16, r[2..]) == decimal
    ensures |r| == 2 <==> decimal == 0
    ensures decimal > 0 ==> Canonical(16, r[2..])
  {
    if decimal == 0 then
      "0x"
    else
      match HexDigitText(decimal % 16)
      case Some(digit) =>
        var front := DecimalToHexRec(decimal / 16);
        var r := front + digit;
        AppendDigit(16, r);
        assert r[..|r| - 1] == front;
        r
      case None => ""
  }

  /**
   * The `switch (decimal % 16)` of decimalToHexRec: the text appended for a
   * remainder (Java's decimal text for 0..9, a letter for 10..15), or `None`
   * for the `default` branch.
   */
  function HexDigitText(remainder: int): (r: Option<string>)
    ensures r.Some? <==> 0 <= remainder < 16
    ensures r.Some? ==> |r.value| == 1 && IsHexDigit(r.value[0]) && DigitValue(r.value[0]) == remainder
  {
    match remainder
    case 0 | 1 | 2 | 3 | 4 | 5 | 6 | 7 | 8 | 9 => Some(IntToString(remainder))
    case 10 => Some("A")
    case 11 => Some("B")
    case 12 => Some("C")
    case 13 => Some("D")
    case 14 => Some("E")
    case 15 => Some("F")
    case _ => None
  }

  // ---------------------------------------------------------------------------
  // hexToBinary
  // ---------------------------------------------------------------------------

  /**
   * hexToBinary: the same value in binary, exactly four binary digits per hex
   * digit, leading zeros included. Null throws IllegalArgument; a bad length,
   * prefix or digit (lower-case letters included) throws NumberFormat.
   */
  function HexToBinary(hex: Option<string>): (r: Result<string>)
    ensures hex.None? ==> r == Err(IllegalArgument)
    ensures hex.Some? ==> (r.Ok? <==> IsHexString(hex.value))
    ensures hex.Some? && r.Err? ==> r.error == NumberFormat
    ensures r.Ok? ==>
      && |r.value| == 2 + 4 * (|hex.value| - 2)
      && Prefixed(r.value, 'b')
      && AllDigits(2, r.value[2..])
      && Value(2, r.value[2..]) == Value(16, hex.value[2..])
  {
    match hex
    case None => Err(IllegalArgument)
    case Some(s) =>
      var size := |s|;
      if size <= 2 || size > 10 then Err(NumberFormat)
      else if s[0] != '0' || s[1] != 'x' then Err(NumberFormat)
      else HexToBinaryRec(s)
  }

  /**
   * The private hexToBinary(hex, size): converts the last hex digit with the
   * table and recurses on the rest, building "0b" and the binary digits in order.
   */
  function HexToBinaryRec(hex: string): (r: Result<string>)
    requires |hex| >= 2
    decreases |hex|
    ensures r.Ok? <==> AllDigits(16, hex[2..])
    ensures r.Err? ==> r.error == NumberFormat
    ensures r.Ok? ==>
      && |r.value| == 2 + 4 * (|hex| - 2)
      && Prefixed(r.value, 'b')
      && AllDigits(2, r.value[2..])
      && Value(2, r.value[2..]) == Value(16, hex[2..])
  {
    var size := |hex|;
    if size == 2 then
      Ok("0b")
    else
      AppendDigit(16, hex);
      match HexToBinaryRec(hex[..size - 1])
      case Err(e) => Err(e)
      case Ok(front) =>
        match HexTableConvert(hex[size - 1])
        case Err(e) => Err(e)
        case Ok(bits) =>
          AppendNibble(front, bits);
          Ok(front + bits)
  }

  /** Appending four binary digits multiplies the value by 16 and adds theirs. */
  lemma AppendNibble(front: string, bits: string)
    requires |front| >= 2 && |bits| == 4
    requires AllDigits(2, front[2..]) && AllDigits(2, bits)
    ensures Prefixed(front, 'b') ==> Prefixed(front + bits, 'b')
    ensures AllDigits(2, (front + bits)[2..])
    ensures Value(2, (front + bits)[2..]) == Value(2, front[2..]) * 16 + Value(2, bits)
  {
    assert (front + bits)[2..] == front[2..] + bits;
    AllDigitsConcat(2, front[2..], bits);
    ValueConcat(2, front[2..], bits);
    PowFacts();
  }

  /**
   * hexTableConvert: the four binary digits of an upper-case hex digit, or
   * NumberFormat for any other character.
   */
  function HexTableConvert(hex: char): (r: Result<string>)
    ensures r.Ok? <==> IsHexDigit(hex)
    ensures r.Err? ==> r.error == NumberFormat
    ensures r.Ok? ==> |r.value| == 4 && AllDigits(2, r.value) && Value(2, r.value) == DigitValue(hex)
  {
    var r := match hex
      case '0' => Ok("0000")
      case '1' => Ok("0001")
      case '2' => Ok("0010")
      case '3' => Ok("0011")
      case '4' => Ok("0100")
      case '5' => Ok("0101")
      case '6' => Ok("0110")
      case '7' => Ok("0111")
      case '8' => Ok("1000")
      case '9' => Ok("1001")
      case 'A' => Ok("1010")
      case 'B' => Ok("1011")
      case 'C' => Ok("1100")
      case 'D' => Ok("1101")
      case 'E' => Ok("1110")
      case 'F' => Ok("1111")
      case _ => Err(NumberFormat);
    if r.Ok? then NibbleValue(r.value); r else r
  }

  // ---------------------------------------------------------------------------
  // hexToDecimal
  // ---------------------------------------------------------------------------

  /** The overflow guard of hexToDecimal: 8 digits and a first character above '7' (code 55). */
  predicate FailsIntGuard(s: string)
    requires |s| >= 3
  {
    |s| == 10 && s[2] as int > 55
  }

  /**
   * hexToDecimal: the positional value of the digits after "0x". Null throws
   * IllegalArgument; a bad length or prefix throws NumberFormat; then 8 digits
   * whose first character is above '7' throw Arithmetic, before the digits are
   * examined; otherwise a bad digit throws NumberFormat. The result is the digits' value.
   */
  function HexToDecimal(hex: Option<string>): (r: Result<Int32>)
    ensures hex.None? ==> r == Err(IllegalArgument)
    ensures hex.Some? && !HasHexShape(hex.value) ==> r == Err(NumberFormat)
    ensures hex.Some? && HasHexShape(hex.value) && FailsIntGuard(hex.value) ==> r == Err(Arithmetic)
    ensures hex.Some? && HasHexShape(hex.value) && !FailsIntGuard(hex.value) ==>
      && (r.Ok? <==> AllDigits(16, hex.value[2..]))
      && (r.Err? ==> r.error == NumberFormat)
    ensures r.Ok? ==> r.value >= 0 && r.value == Value(16, hex.value[2..])
  {
    match hex
    case None => Err(IllegalArgument)
    case Some(s) =>
      var size := |s|;
      if size <= 2 || size > 10 then Err(NumberFormat)
      else if s[0] != '0' || s[1] != 'x' then Err(NumberFormat)
      else if s[2] as int > 55 && size == 10 then Err(Arithmetic)
      else
        var r := HexToDecimalRec(s);
        if r.Ok? then HexFitsInInt(s[2..]); r else r
  }

  /** Up to 8 hex digits, with a first digit of at most 7 when there are 8, fit in an `int`. */
  lemma HexFitsInInt(d: string)
    requires AllDigits(16, d) && 1 <= |d| <= 8
    requires |d| == 8 ==> d[0] as int <= 55
    ensures Value(16, d) <= MaxInt
  {
    PowFacts();
    if |d| < 8 {
      ValueBound(16, d);
      PowMonotone(16, |d|, 7);
    } else {
      ValueBound(16, d[1..]);
      ValueLeading(16, d);
      ShiftBound(DigitValue(d[0]), 8, Pow(16, 7), Value(16, d[1..]));
    }
  }

  /**
   * The private hexToDecimal(hex, size). The base case at size 3 is `HexDigitCase`;
   * otherwise the last character must be '0'..'9' (codes 48..57) or 'A'..'F'
   * (codes 65..70), and its value is added to 16 times that of the rest. Java
   * wraps the product and then the sum (`rec * 16 + (c - '0')`), so both are
   * written with `Wrap`.
   */
  function HexToDecimalRec(hex: string): (r: Result<Int32>)
    requires |hex| >= 3
    decreases |hex|
    ensures r.Ok? <==> AllDigits(16, hex[2..])
    ensures r.Err? ==> r.error == NumberFormat
    ensures r.Ok? && Value(16, hex[2..]) <= MaxInt ==> r.value == Value(16, hex[2..])
  {
    var size := |hex|;
    var c := hex[size - 1];
    if size == 3 then
      HexDigitCase(hex[2])
    else
      AppendDigit(16, hex);
      if c as int <= 57 && c as int >= 48 then
        match HexToDecimalRec(hex[..size - 1])
        case Err(e) => Err(e)
        case Ok(v) =>
          HexStep(hex, v, c as int - '0' as int);
          Ok(Wrap(Wrap(v * 16) + (c as int - '0' as int)))
      else if c as int >= 65 && c as int <= 70 then
        match HexToDecimalRec(hex[..size - 1])
        case Err(e) => Err(e)
        case Ok(v) =>
          HexStep(hex, v, c as int - 55);
          Ok(Wrap(Wrap(v * 16) + (c as int - 55)))
      else
        Err(NumberFormat)
  }

  /**
   * One step of hexToDecimal's evaluation: when the whole value fits in an `int`,
   * so does the value of the leading digits, and wrapping 16 times it and then
   * adding the last digit gives the whole value.
   */
  lemma HexStep(hex: string, v: Int32, digit: int)
    requires |hex| >= 4 && IsDigit(16, hex[|hex| - 1]) && digit == DigitValue(hex[|hex| - 1])
    requires Value(16, hex[..|hex| - 1][2..]) <= MaxInt ==> v == Value(16, hex[..|hex| - 1][2..])
    ensures Value(16, hex[2..]) <= MaxInt ==> Wrap(Wrap(v * 16) + digit) == Value(16, hex[2..])
  {
    AppendDigit(16, hex);
    WrapAdd(v * 16, digit);
    if Value(16, hex[2..]) <= MaxInt {
      WrapInRange(v * 16 + digit);
    }
  }

  /** The base case of hexToDecimal(hex, size): the `switch` on the only digit. */
  function HexDigitCase(c: char): (r: Result<Int32>)
    ensures r.Ok? <==> IsHexDigit(c)
    ensures r.Ok? ==> r.value == DigitValue(c)
    ensures r.Err? ==> r.error == NumberFormat
  {
    match c
    case 'A' => Ok(10)
    case 'B' => Ok(11)
    case 'C' => Ok(12)
    case 'D' => Ok(13)
    case 'E' => Ok(14)
    case 'F' => Ok(15)
    case _ => if c <= '9' && c >= '0' then Ok(c as int - '0' as int) else Err(NumberFormat)
  }
}
