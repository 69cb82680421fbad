/** Character classes shared by the text normaliser and the sentence splitter. */
module Chars {

  /** Python's `str.isspace`, which is also what `\s` means in a `str`
      regular expression and what `str.strip()` removes: the ASCII controls
      TAB..CR and FS..US, SPACE, NEL, NO-BREAK SPACE and the Unicode space
      separators. */
  predicate IsSpace(c: char) {
    || ('\t' <= c <= '\r')
    || ('\U{1C}' <= c <= ' ')
    || c == '\U{85}'
    || c == '\U{A0}'
    || c == '\U{1680}'
    || ('\U{2000}' <= c <= '\U{200A}')
    || c == '\U{2028}'
    || c == '\U{2029}'
    || c == '\U{202F}'
    || c == '\U{205F}'
    || c == '\U{3000}'
  }

  /** A character in the 7-bit range `\x00-\x7F`. */
  predicate IsAscii(c: char) {
    c <= '\U{7F}'
  }

  predicate IsAsciiText(s: string) {
    forall k :: 0 <= k < |s| ==> IsAscii(s[k])
  }

  /** A digit of a lowercase hexadecimal string, as `hexdigest()` produces. */
  predicate IsLowerHexDigit(c: char) {
    ('0' <= c <= '9') || ('a' <= c <= 'f')
  }

  predicate IsLowerHex(s: string) {
    forall k :: 0 <= k < |s| ==> IsLowerHexDigit(s[k])
  }

  /** `p` occurs somewhere in `s`. */
  predicate HasInfix(s: string, p: string) {
    exists k :: 0 <= k <= |s| && p <= s[k..]
  }
}
