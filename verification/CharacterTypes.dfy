/** The character tests of the C library that the models need (sys/libio/ctype.cxx). */
module CharacterTypes {
  predicate IsDigit(c: char) {
    '0' <= c <= '9'
  }

  function ToLower(c: char): char {
    if 'A' <= c <= 'Z' then c - 'A' + 'a' else c
  }

  /** isxdigit: lower case first, and then a comparison with upper-case letters. */
  predicate IsHexDigit(c: char) {
    var l := ToLower(c);
    IsDigit(l) || 'A' <= l <= 'F'
  }

  /** Hexadecimal digits above 9 do not pass, in either case. */
  lemma HexDigitsAreDecimal(c: char)
    ensures IsHexDigit(c) <==> IsDigit(c)
  {
  }
}
