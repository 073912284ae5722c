/**
 * The character classes used by the two patterns of the filter:
 * `\s`, `\d`, `\w` and the case-insensitive comparison of `re.IGNORECASE`.
 */
module CharClasses {

  /** `\s` on a `str` pattern: the characters for which `str.isspace()` holds. */
  predicate IsSpace(c: char) {
    || '\U{9}' <= c <= '\U{D}'
    || '\U{1C}' <= c <= '\U{20}'
    || c == '\U{85}' || c == '\U{A0}' || c == '\U{1680}'
    || '\U{2000}' <= c <= '\U{200A}'
    || c == '\U{2028}' || c == '\U{2029}' || c == '\U{202F}'
    || c == '\U{205F}' || c == '\U{3000}'
  }

  /** `[^\s]`. */
  predicate IsNonSpace(c: char) {
    !IsSpace(c)
  }

  /** `\d`, restricted to the ASCII digits. */
  predicate IsDigit(c: char) {
    '0' <= c <= '9'
  }

  /** `\w`, restricted to ASCII letters, digits and the underscore. */
  predicate IsWordChar(c: char) {
    'a' <= c <= 'z' || 'A' <= c <= 'Z' || IsDigit(c) || c == '_'
  }

  /** Lower-cases the ASCII capitals and leaves every other character alone. */
  function AsciiLower(c: char): (r: char)
    ensures 'a' <= r <= 'z' ==> c == r || c as int == r as int - 32
    ensures !('a' <= r <= 'z') ==> c == r
  {
    if 'A' <= c <= 'Z' then (c as int + 32) as char else c
  }

  /**
   * Does character `c` of the text match the lower-case pattern letter `k`
   * under `re.IGNORECASE`?  Besides the ASCII capitals, the long s (U+017F)
   * case-folds to `s`.
   */
  predicate KeyCharMatch(c: char, k: char) {
    AsciiLower(c) == k || (k == 's' && c == '\U{17F}')
  }

  /** A character matching a lower-case ASCII letter is a letter: never a space, `=`, `*` or digit. */
  lemma KeyCharIsLetter(c: char, k: char)
    requires 'a' <= k <= 'z' && KeyCharMatch(c, k)
    ensures !IsSpace(c) && c != '=' && c != '*' && !IsDigit(c)
  {
  }
}
