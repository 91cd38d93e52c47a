/**
 * The worked examples of the library's documentation, and two further
 * concrete cases: a symbol outside the alphabet, and an odd alphabet size
 * for which one substitution goes unnoticed.
 */
module LuhnExamples {

  import opened Residues
  import opened Luhn

  const Hex: seq<char> := "0123456789abcdef"

  /** The reversed indices of a number over a distinct-symbol alphabet, given position by position. */
  lemma IndicesAre(number: seq<char>, alphabet: seq<char>, vs: seq<nat>)
    requires Distinct(alphabet) && AllIn(number, alphabet) && |vs| == |number|
    requires forall k :: 0 <= k < |vs| ==> vs[k] < |alphabet| && alphabet[vs[k]] == number[|number| - 1 - k]
    ensures ReversedIndices(number, alphabet) == Ok(vs)
  {
    assert ReversedIndices(number, alphabet).Ok?;
    forall k | 0 <= k < |vs|
      ensures ReversedIndices(number, alphabet).value[k] == vs[k]
    {
      ReversedIndicesEntry(number, alphabet, k);
      IndexOfDistinct(alphabet, vs[k]);
    }
    assert ReversedIndices(number, alphabet).value == vs;
  }

  lemma DecimalDistinct()
    ensures Distinct(Decimal)
  {
  }

  lemma HexDistinct()
    ensures Distinct(Hex)
  {
  }

  lemma Indices7894()
    ensures ReversedIndices("7894", Decimal) == Ok([4, 9, 8, 7])
  {
    DecimalDistinct();
    IndicesAre("7894", Decimal, [4, 9, 8, 7]);
  }

  lemma Indices78940()
    ensures ReversedIndices("78940", Decimal) == Ok([0, 4, 9, 8, 7])
  {
    DecimalDistinct();
    IndicesAre("78940", Decimal, [0, 4, 9, 8, 7]);
  }

  lemma Indices78949()
    ensures ReversedIndices("78949", Decimal) == Ok([9, 4, 9, 8, 7])
  {
    DecimalDistinct();
    IndicesAre("78949", Decimal, [9, 4, 9, 8, 7]);
  }

  lemma Indices1234Hex()
    ensures ReversedIndices("1234", Hex) == Ok([4, 3, 2, 1])
  {
    HexDistinct();
    IndicesAre("1234", Hex, [4, 3, 2, 1]);
  }

  /** Reversed, "7894" has indices 4, 9, 8, 7; the total is 4 + 9 + 8 + 5 = 26. */
  lemma DecimalChecksum()
    ensures Checksum("7894", Decimal) == Ok(6)
    ensures IsValid("7894", Decimal) == Ok(false)
  {
    Indices7894();
    ChecksumIsPositional("7894", Decimal);
    DoubledValueBounds(9, 10);
    DoubledValueBounds(7, 10);
    assert PositionalTotal([4, 9, 8, 7], 10, false) == 26;
  }

  /** "78940" totals 0 + 8 + 9 + 7 + 7 = 31. */
  lemma Checksum78940()
    ensures Checksum("78940", Decimal) == Ok(1)
  {
    Indices78940();
    ChecksumIsPositional("78940", Decimal);
    DoubledValueBounds(4, 10);
    DoubledValueBounds(8, 10);
    assert PositionalTotal([0, 4, 9, 8, 7], 10, false) == 31;
    DivModIsDivision(31, 10);
  }

  /** The padded number has checksum 1, so the check digit is `alphabet[-1]`. */
  lemma DecimalCheckDigit()
    ensures CalcCheckDigit("7894", Decimal) == Ok('9')
  {
    assert "7894" + [Decimal[0]] == "78940";
    Checksum78940();
  }

  /** "78949" totals 9 + 8 + 9 + 7 + 7 = 40. */
  lemma DecimalValid()
    ensures IsValid("78949", Decimal) == Ok(true)
  {
    Indices78949();
    ChecksumIsPositional("78949", Decimal);
    DivModIsDivision(40, 10);
    DoubledValueBounds(4, 10);
    DoubledValueBounds(8, 10);
    assert PositionalTotal([9, 4, 9, 8, 7], 10, false) == 40;
  }

  lemma Checksum00()
    ensures Checksum("00", Decimal) == Ok(0)
  {
    DecimalDistinct();
    IndicesAre("00", Decimal, [0, 0]);
    ChecksumIsPositional("00", Decimal);
    assert PositionalTotal([0, 0], 10, false) == 0;
  }

  /** Where `ck` is 0, Python's `alphabet[-0]` is the first symbol. */
  lemma ZeroCheckDigit()
    ensures CalcCheckDigit("0", Decimal) == Ok('0')
  {
    assert "0" + [Decimal[0]] == "00";
    Checksum00();
  }

  /** In base 16, "1234" totals 4 + 6 + 2 + 2 = 14. */
  lemma HexChecksum()
    ensures Checksum("1234", Hex) == Ok(14)
    ensures IsValid("1234", Hex) == Ok(false)
  {
    Indices1234Hex();
    ChecksumIsPositional("1234", Hex);
    DoubledValueBounds(3, 16);
    DoubledValueBounds(1, 16);
    assert PositionalTotal([4, 3, 2, 1], 16, false) == 14;
  }

  /** The lookups run from the right, so the rightmost foreign symbol is the one reported. */
  lemma ForeignSymbol()
    ensures Checksum("1x2y", Decimal) == Err(SymbolNotInAlphabet('y'))
    ensures IsValid("1x2y", Decimal) == Err(SymbolNotInAlphabet('y'))
    ensures CalcCheckDigit("1x2y", Decimal) == Err(SymbolNotInAlphabet('y'))
  {
    var number := "1x2y";
    assert number[3] == 'y' && 'y' !in Decimal && number[4..] == [];
    assert RightmostMissing(number, Decimal, 'y');
    RightmostMissingUnique(number, Decimal, Checksum(number, Decimal).error.symbol, 'y');
    RightmostMissingUnique(number, Decimal, IsValid(number, Decimal).error.symbol, 'y');
    RightmostMissingUnique(number, Decimal, CalcCheckDigit(number, Decimal).error.symbol, 'y');
  }

  /**
   * With three symbols, doubling 1 and 2 gives the same digit sum (2 and
   * 1 + 1), so exchanging them at an odd offset leaves the checksum as it was.
   */
  lemma OddAlphabetMissesSubstitution()
    ensures Checksum("10", "012") == Ok(2)
    ensures Checksum("20", "012") == Ok(2)
  {
    ChecksumOf10();
    ChecksumOf20();
  }

  lemma ChecksumOf10()
    ensures Checksum("10", "012") == Ok(2)
  {
    IndicesAre("10", "012", [0, 1]);
    ChecksumIsPositional("10", "012");
    DoubledValueBounds(1, 3);
    assert PositionalTotal([0, 1], 3, false) == 2;
  }

  lemma ChecksumOf20()
    ensures Checksum("20", "012") == Ok(2)
  {
    IndicesAre("20", "012", [0, 2]);
    ChecksumIsPositional("20", "012");
    DoubledValueBounds(2, 3);
    assert PositionalTotal([0, 2], 3, false) == 2;
  }

  /** The reversed indices of a number, given by the first occurrence of each symbol. */
  lemma IndicesFrom(number: seq<char>, alphabet: seq<char>, vs: seq<nat>)
    requires AllIn(number, alphabet) && |vs| == |number|
    requires forall k :: 0 <= k < |vs| ==> IndexOf(alphabet, number[|number| - 1 - k]) == Some(vs[k])
    ensures ReversedIndices(number, alphabet) == Ok(vs)
  {
    assert ReversedIndices(number, alphabet).Ok?;
    forall k | 0 <= k < |vs|
      ensures ReversedIndices(number, alphabet).value[k] == vs[k]
    {
      ReversedIndicesEntry(number, alphabet, k);
    }
    assert ReversedIndices(number, alphabet).value == vs;
  }

  /**
   * Over "abb", whose symbol 'b' is repeated, "baa" totals 0 + 0 + 1 = 1, so
   * the check digit of "ba" is the 'b' at position 2.
   */
  lemma RepeatedSymbolCheckDigit()
    ensures CalcCheckDigit("ba", "abb") == Ok('b')
  {
    assert "ba" + ["abb"[0]] == "baa";
    assert IndexOf("abb", 'a') == Some(0);
    assert IndexOf("abb", 'b') == Some(1);
    IndicesFrom("baa", "abb", [0, 0, 1]);
    ChecksumIsPositional("baa", "abb");
    assert PositionalTotal([0, 0, 1], 3, false) == 1;
  }

  /**
   * That 'b' is looked up at position 1, and "bab" totals 1 + 0 + 1 = 2: with
   * a repeated symbol the check digit need not complete the number.
   */
  lemma RepeatedSymbolBreaksClosure()
    ensures IsValid("bab", "abb") == Ok(false)
  {
    assert IndexOf("abb", 'a') == Some(0);
    assert IndexOf("abb", 'b') == Some(1);
    IndicesFrom("bab", "abb", [1, 0, 1]);
    ChecksumIsPositional("bab", "abb");
    assert PositionalTotal([1, 0, 1], 3, false) == 2;
  }
}
