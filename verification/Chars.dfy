/** Characters in the C locale. */
module Chars {
  /** `isspace`. */
  predicate Space(c: char) {
    c == ' ' || '\t' <= c <= '\r'
  }

  // ----- Letters and digits, one by one -----

  predicate Lower(c: char) { c in "abcdefghijklmnopqrstuvwxyz" }

  predicate Upper(c: char) { c in "ABCDEFGHIJKLMNOPQRSTUVWXYZ" }

  predicate Decimal(c: char) { c in "0123456789" }

  predicate LetterOrDigit(c: char) { Lower(c) || Upper(c) || Decimal(c) }

  lemma LowerIs(c: char)
    ensures Lower(c) <==> 'a' <= c <= 'z'
  {
  }

  lemma UpperIs(c: char)
    ensures Upper(c) <==> 'A' <= c <= 'Z'
  {
  }

  lemma DecimalIs(c: char)
    ensures Decimal(c) <==> '0' <= c <= '9'
  {
  }

  lemma LettersAndDigits(c: char)
    ensures LetterOrDigit(c) <==> 'a' <= c <= 'z' || 'A' <= c <= 'Z' || '0' <= c <= '9'
  {
    LowerIs(c);
    UpperIs(c);
    DecimalIs(c);
  }
}
