/**
 * Properties relating the conversions to one another: each decimal-to-string
 * conversion is undone by its parser, each parser is undone by its printer on
 * numerals without leading zeros, the two hexadecimal/binary conversions undo
 * each other up to zero padding, and the two parsers agree across bases.
 */
module RoundTrips {
  import opened Results
  import opened Ints
  import opened Numerals
  import opened Converter

  /** Two shortest numerals of the same value are the same numeral. */
  lemma ShortestUnique(base: nat, d: string, e: string)
    requires base >= 2 && AllDigits(base, d) && AllDigits(base, e)
    requires Shortest(base, d) && Shortest(base, e) && Value(base, d) == Value(base, e)
    ensures d == e
  {
    if d == "0" || e == "0" {
      assert Value(base, "0") == 0;
      if Canonical(base, d) {
        CanonicalBounds(base, d);
        PowPositive(base, |d| - 1);
      }
      if Canonical(base, e) {
        CanonicalBounds(base, e);
        PowPositive(base, |e| - 1);
      }
    } else {
      CanonicalUnique(base, d, e);
    }
  }

  /** Strings that agree on their first two characters and on the rest are equal. */
  lemma SamePrefix(x: string, y: string)
    requires |x| >= 2 && |y| >= 2 && x[0] == y[0] && x[1] == y[1] && x[2..] == y[2..]
    ensures x == y
  {
    assert x == [x[0], x[1]] + x[2..];
    assert y == [y[0], y[1]] + y[2..];
  }

  /**
   * binaryToDecimal(decimalToBinary(n)) is n for every non-negative `int`; for a
   * negative one the null that decimalToBinary returns makes binaryToDecimal throw.
   */
  lemma DecimalBinaryDecimal(n: Int32)
    ensures BinaryToDecimal(DecimalToBinary(n)) == if n < 0 then Err(IllegalArgument) else Ok(n)
  {
  }

  /** hexToDecimal(decimalToHex(n)) is n for every non-negative `int`, with no Arithmetic error. */
  lemma DecimalHexDecimal(n: Int32)
    ensures HexToDecimal(DecimalToHex(n)) == if n < 0 then Err(IllegalArgument) else Ok(n)
  {
  }

  /** decimalToBinary(binaryToDecimal(b)) gives back every binary string without leading zeros. */
  lemma BinaryDecimalBinary(b: string)
    requires IsBinaryString(b) && Shortest(2, b[2..])
    ensures BinaryToDecimal(Some(b)).Ok?
    ensures DecimalToBinary(BinaryToDecimal(Some(b)).value) == Some(b)
  {
    var r := DecimalToBinary(BinaryToDecimal(Some(b)).value).value;
    ShortestUnique(2, r[2..], b[2..]);
    SamePrefix(r, b);
  }

  /**
   * decimalToHex(hexToDecimal(h)) gives back every hexadecimal string without
   * leading zeros that passes the overflow guard.
   */
  lemma HexDecimalHex(h: string)
    requires IsHexString(h) && Shortest(16, h[2..]) && !FailsIntGuard(h)
    ensures HexToDecimal(Some(h)).Ok?
    ensures DecimalToHex(HexToDecimal(Some(h)).value) == Some(h)
  {
    var r := DecimalToHex(HexToDecimal(Some(h)).value).value;
    ShortestUnique(16, r[2..], h[2..]);
    SamePrefix(r, h);
  }

  /**
   * hexToDecimal throws Arithmetic on a well-formed hexadecimal string exactly
   * when its value exceeds the largest `int`, 0x7FFFFFFF; otherwise it returns
   * that value.
   */
  lemma HexToDecimalOverflow(h: string)
    requires IsHexString(h)
    ensures HexToDecimal(Some(h)) == Err(Arithmetic) <==> Value(16, h[2..]) > MaxInt
    ensures Value(16, h[2..]) <= MaxInt ==> HexToDecimal(Some(h)) == Ok(Value(16, h[2..]))
  {
    var d := h[2..];
    if |h| == 10 && h[2] as int > 55 {
      LeadingDigitBound(d);
    } else if |h| == 10 {
      assert Value(16, d) <= MaxInt by {
        HexFitsInInt(d);
      }
    } else {
      HexFitsInInt(d);
    }
  }

  /** Eight hex digits starting with 8..F are worth at least 0x80000000. */
  lemma LeadingDigitBound(d: string)
    requires AllDigits(16, d) && |d| == 8 && d[0] as int > 55
    ensures Value(16, d) > MaxInt
  {
    PowFacts();
    ValueLeading(16, d);
    MulStep(7, DigitValue(d[0]), Pow(16, 7));
  }

  /** binaryToHex turns a binary string into a hexadecimal string of ceil(k/4) digits for k digits. */
  lemma BinaryToHexIsHex(b: string)
    requires IsBinaryString(b)
    ensures BinaryToHex(Some(b)).Ok?
    ensures IsHexString(BinaryToHex(Some(b)).value)
    ensures |BinaryToHex(Some(b)).value| - 2 == (|b| - 2 + PadWidth(|b| - 2)) / 4
  {
    PadLength(|b| - 2);
  }

  /** hexToBinary turns a hexadecimal string into a binary string, if it has at most 7 digits. */
  lemma HexToBinaryIsBinary(h: string)
    requires IsHexString(h)
    ensures HexToBinary(Some(h)).Ok?
    ensures |h| <= 9 <==> IsBinaryString(HexToBinary(Some(h)).value)
    ensures (|HexToBinary(Some(h)).value| - 2) % 4 == 0
  {
  }

  /**
   * hexToBinary(binaryToHex(b)) is `b` with its digits left-padded with zeros to
   * a multiple of four.
   */
  lemma BinaryHexBinary(b: string)
    requires IsBinaryString(b)
    ensures BinaryToHex(Some(b)).Ok?
    ensures HexToBinary(Some(BinaryToHex(Some(b)).value)) == Ok("0b" + Zeros(PadWidth(|b| - 2)) + b[2..])
  {
    BinaryToHexIsHex(b);
    var x := BinaryToHex(Some(b)).value;
    var y := HexToBinary(Some(x)).value;
    PaddedDigitsBack(b[2..], x[2..], y);
  }

  /**
   * The arithmetic of `BinaryHexBinary`: binary digits `y` of the same value as the
   * hex digits `h`, four per hex digit, are the binary digits `d` padded with zeros.
   */
  lemma PaddedDigitsBack(d: string, h: string, y: string)
    requires |d| >= 1 && AllDigits(2, d)
    requires |h| == (|d| + PadWidth(|d|)) / 4 && Value(16, h) == Value(2, d)
    requires Prefixed(y, 'b') && |y| == 2 + 4 * |h|
    requires AllDigits(2, y[2..]) && Value(2, y[2..]) == Value(16, h)
    ensures y == "0b" + Zeros(PadWidth(|d|)) + d
  {
    GroupCount(|d|, |h|);
    PaddedDigitsEqual(d, y[2..]);
    PrefixedPadded(y, PadWidth(|d|), d);
  }

  /** `h` groups of four hold exactly the `k` padded digits. */
  lemma GroupCount(k: int, h: int)
    requires k >= 1 && h == (k + PadWidth(k)) / 4
    ensures 4 * h == k + PadWidth(k)
  {
    PadLength(k);
  }

  /** Binary digits as long as `d` padded, and of the same value, are `d` padded. */
  lemma PaddedDigitsEqual(d: string, e: string)
    requires AllDigits(2, d) && AllDigits(2, e)
    requires |e| == |d| + PadWidth(|d|) && Value(2, e) == Value(2, d)
    ensures e == Zeros(PadWidth(|d|)) + d
  {
    var padded := Zeros(PadWidth(|d|)) + d;
    PaddedDigits(d, PadWidth(|d|));
    ValueInjective(2, e, padded);
  }

  /** A string with prefix "0b" and digits `w` zeros then `d` is exactly that. */
  lemma PrefixedPadded(y: string, w: nat, d: string)
    requires Prefixed(y, 'b') && y[2..] == Zeros(w) + d
    ensures y == "0b" + Zeros(w) + d
  {
    var e := Zeros(w) + d;
    SamePrefix(y, "0b" + e);
    assert "0b" + e == "0b" + Zeros(w) + d;
  }

  /**
   * binaryToHex(hexToBinary(h)) is `h` for 1 to 7 hex digits. For 8 digits the
   * binary string has 32 digits, one more than binaryToHex accepts, and it throws
   * NumberFormat.
   */
  lemma HexBinaryHex(h: string)
    requires IsHexString(h)
    ensures HexToBinary(Some(h)).Ok?
    ensures BinaryToHex(Some(HexToBinary(Some(h)).value)) == if |h| <= 9 then Ok(h) else Err(NumberFormat)
  {
    HexToBinaryIsBinary(h);
    var x := HexToBinary(Some(h)).value;
    if |h| <= 9 {
      BinaryToHexIsHex(x);
      var y := BinaryToHex(Some(x)).value;
      assert |y| == |h|;
      ValueInjective(16, y[2..], h[2..]);
      SamePrefix(y, h);
    }
  }

  /** A binary string converted to hexadecimal parses to the same `int` as the binary string. */
  lemma BinaryHexAgree(b: string)
    requires IsBinaryString(b)
    ensures BinaryToHex(Some(b)).Ok?
    ensures HexToDecimal(Some(BinaryToHex(Some(b)).value)) == BinaryToDecimal(Some(b))
  {
    BinaryToHexIsHex(b);
    var x := BinaryToHex(Some(b)).value;
    var v := BinaryToDecimal(Some(b)).value;
    assert Value(16, x[2..]) == v <= MaxInt;
    HexToDecimalOverflow(x);
  }

  /**
   * A hexadecimal string of 1 to 7 digits converted to binary parses to the same
   * `int` as the hexadecimal string; with 8 digits the binary string is too long.
   */
  lemma HexBinaryAgree(h: string)
    requires IsHexString(h)
    ensures HexToBinary(Some(h)).Ok?
    ensures BinaryToDecimal(Some(HexToBinary(Some(h)).value))
         == if |h| <= 9 then HexToDecimal(Some(h)) else Err(NumberFormat)
  {
    HexToBinaryIsBinary(h);
    if |h| <= 9 {
      HexToDecimalOverflow(h);
    }
  }

  /** binTableConvert undoes hexTableConvert. */
  lemma HexTableBinTable(c: char)
    requires IsHexDigit(c)
    ensures HexTableConvert(c).Ok?
    ensures BinTableConvert(HexTableConvert(c).value) == Ok(c)
  {
    DigitValueInjective(BinTableConvert(HexTableConvert(c).value).value, c);
  }

  /** hexTableConvert undoes binTableConvert. */
  lemma BinTableHexTable(n: string)
    requires |n| == 4 && AllDigits(2, n)
    ensures BinTableConvert(n).Ok?
    ensures HexTableConvert(BinTableConvert(n).value) == Ok(n)
  {
    ValueInjective(2, HexTableConvert(BinTableConvert(n).value).value, n);
  }
}
