/**
 * Concrete conversions, derived from the contracts, including the order in which
 * hexToDecimal reports its errors: the overflow guard looks only at the length
 * and the first character, so it fires before an invalid digit is seen.
 */
module Examples {
  import opened Results
  import opened Numerals
  import opened Converter
  import opened RoundTrips

  lemma ErrorExamples()
    ensures BinaryToDecimal(None) == Err(IllegalArgument)
    ensures BinaryToDecimal(Some("0b")) == Err(NumberFormat)
    ensures BinaryToDecimal(Some("0b102")) == Err(NumberFormat)
    ensures DecimalToHex(-1) == None
    ensures HexToDecimal(Some("0x80000000")) == Err(Arithmetic)
    ensures HexToDecimal(Some("0xG0000000")) == Err(Arithmetic)
    ensures HexToDecimal(Some("0xa")) == Err(NumberFormat)
  {
  }

  lemma DecimalToBinaryExample()
    ensures DecimalToBinary(5) == Some("0b101")
  {
    var r := DecimalToBinary(5).value;
    assert Value(2, "101") == 5 && Canonical(2, "101");
    ShortestUnique(2, r[2..], "101");
    SamePrefix(r, "0b101");
  }

  lemma DecimalToHexExample()
    ensures DecimalToHex(255) == Some("0xFF")
  {
    var r := DecimalToHex(255).value;
    assert Value(16, "FF") == 255 && Canonical(16, "FF");
    ShortestUnique(16, r[2..], "FF");
    SamePrefix(r, "0xFF");
  }

  lemma HexToDecimalExample()
    ensures HexToDecimal(Some("0x1F")) == Ok(31)
  {
    assert "0x1F"[2..] == "1F";
    assert Value(16, "1F") == 31;
  }
}
