/**
 The two constant lookup tables of the revision codec: the 64-symbol
 alphabet (digit value -> byte) and its 256-entry inverse (byte -> digit
 value). Both are process-lifetime constants in the source; here they are
 `const` sequences, checked entry by entry against a closed-form
 description of the alphabet:

   digit  0      1      2..27    28..53   54..63
   symbol '-'    '_'    'A'..'Z' 'a'..'z' '0'..'9'
 */
module RevisionTables {
  import opened GoTypes

  /** The byte of the double-quote character, which the decoder skips. */
  const Quote: byte := 34

  /** Digit value -> symbol byte. */
  const EncodingTable: seq<byte> :=
    ([45, 95, 65, 66, 67, 68, 69, 70, 71, 72, 73, 74, 75, 76, 77, 78] +
     [79, 80, 81, 82, 83, 84, 85, 86, 87, 88, 89, 90, 97, 98, 99, 100]) +
    ([101, 102, 103, 104, 105, 106, 107, 108, 109, 110, 111, 112, 113, 114, 115, 116] +
     [117, 118, 119, 120, 121, 122, 48, 49, 50, 51, 52, 53, 54, 55, 56, 57])

  /** Byte -> digit value, sixteen bytes per row. */
  const DecodingTable: seq<byte> :=
    (
      (([0, 0, 0, 0, 0, 0, 0, 0, 0, 0, 0, 0, 0, 0, 0, 0] +
        [0, 0, 0, 0, 0, 0, 0, 0, 0, 0, 0, 0, 0, 0, 0, 0]) +
       ([0, 0, 0, 0, 0, 0, 0, 0, 0, 0, 0, 0, 0, 0, 0, 0] +
        [54, 55, 56, 57, 58, 59, 60, 61, 62, 63, 0, 0, 0, 0, 0, 0]))
     +
      (([0, 2, 3, 4, 5, 6, 7, 8, 9, 10, 11, 12, 13, 14, 15, 16] +
        [17, 18, 19, 20, 21, 22, 23, 24, 25, 26, 27, 0, 0, 0, 0, 1]) +
       ([0, 28, 29, 30, 31, 32, 33, 34, 35, 36, 37, 38, 39, 40, 41, 42] +
        [43, 44, 45, 46, 47, 48, 49, 50, 51, 52, 53, 0, 0, 0, 0, 0]))
    ) + (
      (([0, 0, 0, 0, 0, 0, 0, 0, 0, 0, 0, 0, 0, 0, 0, 0] +
        [0, 0, 0, 0, 0, 0, 0, 0, 0, 0, 0, 0, 0, 0, 0, 0]) +
       ([0, 0, 0, 0, 0, 0, 0, 0, 0, 0, 0, 0, 0, 0, 0, 0] +
        [0, 0, 0, 0, 0, 0, 0, 0, 0, 0, 0, 0, 0, 0, 0, 0]))
     +
      (([0, 0, 0, 0, 0, 0, 0, 0, 0, 0, 0, 0, 0, 0, 0, 0] +
        [0, 0, 0, 0, 0, 0, 0, 0, 0, 0, 0, 0, 0, 0, 0, 0]) +
       ([0, 0, 0, 0, 0, 0, 0, 0, 0, 0, 0, 0, 0, 0, 0, 0] +
        [0, 0, 0, 0, 0, 0, 0, 0, 0, 0, 0, 0, 0, 0, 0, 0]))
    )

  /** The byte of an ASCII character. */
  function Ascii(c: char): byte
    requires c as int < 256
  {
    c as int as byte
  }

  /** The alphabet, by character range. */
  predicate IsSymbol(b: byte) {
    || b == Ascii('-') || b == Ascii('_')
    || Ascii('A') <= b <= Ascii('Z')
    || Ascii('a') <= b <= Ascii('z')
    || Ascii('0') <= b <= Ascii('9')
  }

  /** Reference definition of the alphabet: the symbol of digit `d`, by character range. */
  function AlphabetSymbol(d: int): int
    requires 0 <= d < 64
  {
    if d == 0 then '-' as int
    else if d == 1 then '_' as int
    else if d < 28 then 'A' as int + (d - 2)
    else if d < 54 then 'a' as int + (d - 28)
    else '0' as int + (d - 54)
  }

  /** Reference definition of the inverse: the digit of byte `b`, 0 outside the alphabet. */
  function AlphabetDigit(b: int): int {
    if b == '-' as int then 0
    else if b == '_' as int then 1
    else if 'A' as int <= b <= 'Z' as int then b - 'A' as int + 2
    else if 'a' as int <= b <= 'z' as int then b - 'a' as int + 28
    else if '0' as int <= b <= '9' as int then b - '0' as int + 54
    else 0
  }

  /** The digit value of byte `b`, as the decoding table gives it
      (`DecodingTableIsDigitOf`): the symbol's position in the alphabet, and 0
      for every byte outside the alphabet. */
  function DigitOf(b: byte): (d: int)
    ensures 0 <= d < 64
    ensures IsSymbol(b) ==> AlphabetSymbol(d) == b as int
    ensures !IsSymbol(b) ==> d == 0
  {
    AlphabetDigit(b as int)
  }

  /** The symbol of digit value `d`, as the encoding table gives it
      (`EncodingTableIsSymbolOf`). It is never the quote byte. */
  function SymbolOf(d: int): (b: byte)
    requires 0 <= d < 64
    ensures IsSymbol(b) && b != Quote
    ensures DigitOf(b) == d
  {
    AlphabetSymbol(d) as byte
  }

  /** The encoding table lists the alphabet in digit order. */
  lemma EncodingTableMatchesAlphabet()
    ensures |EncodingTable| == 64
    ensures forall d :: 0 <= d < 64 ==> EncodingTable[d] as int == AlphabetSymbol(d)
  {
    forall d | 0 <= d < 64 ensures EncodingTable[d] as int == AlphabetSymbol(d) {
      if d < 32 { EncodingRowsBelow32(d); } else { EncodingRowsFrom32(d); }
    }
  }

  lemma EncodingRowsBelow32(d: int)
    requires 0 <= d < 32
    ensures EncodingTable[d] as int == AlphabetSymbol(d)
  {}

  lemma EncodingRowsFrom32(d: int)
    requires 32 <= d < 64
    ensures EncodingTable[d] as int == AlphabetSymbol(d)
  {}

  /** Every entry of the decoding table is the alphabet digit of its index. */
  lemma DecodingTableMatchesAlphabet(b: int)
    requires 0 <= b < 256
    ensures |DecodingTable| == 256
    ensures DecodingTable[b] as int == AlphabetDigit(b)
  {
    if b < 48 { DecodingRowsBelow48(b); }
    else if b < 64 { DecodingRow48(b); }
    else if b < 80 { DecodingRow64(b); }
    else if b < 96 { DecodingRow80(b); }
    else if b < 112 { DecodingRow96(b); }
    else if b < 128 { DecodingRow112(b); }
    else if b < 192 { DecodingRowsFrom128(b); }
    else { DecodingRowsFrom192(b); }
  }

  // One lemma per stretch of the decoding table keeps each proof obligation small.

  lemma DecodingRowsBelow48(b: int)
    requires 0 <= b < 48
    ensures DecodingTable[b] as int == AlphabetDigit(b)
  {}

  lemma DecodingRow48(b: int)
    requires 48 <= b < 64
    ensures DecodingTable[b] as int == AlphabetDigit(b)
  {}

  lemma DecodingRow64(b: int)
    requires 64 <= b < 80
    ensures DecodingTable[b] as int == AlphabetDigit(b)
  {}

  lemma DecodingRow80(b: int)
    requires 80 <= b < 96
    ensures DecodingTable[b] as int == AlphabetDigit(b)
  {}

  lemma DecodingRow96(b: int)
    requires 96 <= b < 112
    ensures DecodingTable[b] as int == AlphabetDigit(b)
  {}

  lemma DecodingRow112(b: int)
    requires 112 <= b < 128
    ensures DecodingTable[b] as int == AlphabetDigit(b)
  {}

  lemma DecodingRowsFrom128(b: int)
    requires 128 <= b < 192
    ensures DecodingTable[b] as int == AlphabetDigit(b)
  {}

  lemma DecodingRowsFrom192(b: int)
    requires 192 <= b < 256
    ensures DecodingTable[b] as int == AlphabetDigit(b)
  {}

  /** The encoding table is `SymbolOf`, entry by entry. */
  lemma EncodingTableIsSymbolOf()
    ensures |EncodingTable| == 64
    ensures forall d :: 0 <= d < 64 ==> EncodingTable[d] == SymbolOf(d)
  {
    EncodingTableMatchesAlphabet();
  }

  /** The decoding table is `DigitOf`, entry by entry. */
  lemma DecodingTableIsDigitOf()
    ensures |DecodingTable| == 256
    ensures forall b: byte :: DecodingTable[b] as int == DigitOf(b)
  {
    forall b: byte ensures DecodingTable[b] as int == DigitOf(b) {
      DecodingTableMatchesAlphabet(b as int);
    }
  }

  /** The alphabet is exactly the set of bytes in the encoding table. */
  lemma SymbolsAreTheEncodingTable(b: byte)
    ensures IsSymbol(b) <==> b in EncodingTable
  {
    EncodingTableIsSymbolOf();
    if IsSymbol(b) {
      assert EncodingTable[DigitOf(b)] == b;
    }
  }

  /** The decoding table inverts the encoding table on all 64 digits; in
      particular the 64 symbols are distinct. */
  lemma TablesInverse()
    ensures |EncodingTable| == 64 && |DecodingTable| == 256
    ensures forall d :: 0 <= d < 64 ==> DecodingTable[EncodingTable[d]] as int == d
  {
    EncodingTableIsSymbolOf();
    DecodingTableIsDigitOf();
  }

  /** The decoding table holds digit values only; a byte outside the
      alphabet looks up to 0, and one inside maps back to itself. */
  lemma DecodingTableShape()
    ensures |DecodingTable| == 256
    ensures forall b: byte :: DecodingTable[b] < 64
    ensures forall b: byte :: b !in EncodingTable ==> DecodingTable[b] == 0
    ensures forall b: byte :: b in EncodingTable ==> EncodingTable[DecodingTable[b]] == b
  {
    EncodingTableIsSymbolOf();
    DecodingTableIsDigitOf();
    forall b: byte
      ensures b !in EncodingTable ==> DecodingTable[b] == 0
      ensures b in EncodingTable ==> EncodingTable[DecodingTable[b]] == b
    {
      SymbolsAreTheEncodingTable(b);
    }
  }

  /** The quote byte is not a symbol, so skipping it never skips a digit. */
  lemma QuoteIsNotASymbol()
    ensures Quote !in EncodingTable && !IsSymbol(Quote)
  {
    SymbolsAreTheEncodingTable(Quote);
  }

  /** The digit values of the landmark symbols of the alphabet. */
  lemma AlphabetLandmarks()
    ensures DecodingTable[Ascii('-')] == 0 && DecodingTable[Ascii('_')] == 1
    ensures DecodingTable[Ascii('A')] == 2 && DecodingTable[Ascii('Z')] == 27
    ensures DecodingTable[Ascii('a')] == 28 && DecodingTable[Ascii('z')] == 53
    ensures DecodingTable[Ascii('0')] == 54 && DecodingTable[Ascii('9')] == 63
    ensures DecodingTable[Quote] == 0
  {
    DecodingTableIsDigitOf();
  }
}
