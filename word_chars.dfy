/**
 * The regular-expression class `\w` as JavaScript defines it for a pattern
 * without the `u` flag: the ASCII letters, the ASCII digits and `_`.
 */
module WordChars {

  predicate IsWordChar(c: char) {
    ('A' <= c <= 'Z') || ('a' <= c <= 'z') || ('0' <= c <= '9') || c == '_'
  }

  /** Every character of `s` is matched by `\w` */
  predicate AllWord(s: string) {
    forall k :: 0 <= k < |s| ==> IsWordChar(s[k])
  }

  predicate IsDigit(c: char) {
    '0' <= c <= '9'
  }
}
