/**
 * Character classes used by the text-processing routines.
 *
 * Python's regular expressions and string methods work on Unicode
 * character classes. `IsSpace` is exactly the set Python's `str.isspace`
 * and the `\s` class accept. `IsDigit` (`\d`), `IsWordChar` (`\w`) and
 * `LowerChar` (`str.lower`) are approximations: they cover ASCII and the
 * scripts the articles use (Hangul, Latin-1, Greek, Cyrillic, CJK), not the
 * whole Unicode database.
 */
module Chars {

  /** Python's `str.isspace()` and the regular-expression class `\s`. */
  predicate IsSpace(c: char) {
    || ('\t' <= c <= '\r')
    || ('\U{001C}' <= c <= '\U{001F}')
    || c == ' ' || c == '\U{0085}' || c == '\U{00A0}' || c == '\U{1680}'
    || ('\U{2000}' <= c <= '\U{200A}')
    || c == '\U{2028}' || c == '\U{2029}' || c == '\U{202F}' || c == '\U{205F}' || c == '\U{3000}'
  }

  /** A precomposed Hangul syllable, the regular-expression range `[가-힣]`. */
  predicate IsHangul(c: char) {
    '가' <= c <= '힣'
  }

  /** The regular-expression range `[a-zA-Z]`. */
  predicate IsAsciiLetter(c: char) {
    ('a' <= c <= 'z') || ('A' <= c <= 'Z')
  }

  /** The regular-expression range `[0-9]`. */
  predicate IsAsciiDigit(c: char) {
    '0' <= c <= '9'
  }

  /** The regular-expression class `\d` (decimal digits of the common scripts). */
  predicate IsDigit(c: char) {
    IsAsciiDigit(c)
    || ('٠' <= c <= '٩')   // Arabic-Indic
    || ('۰' <= c <= '۹')   // extended Arabic-Indic
    || ('०' <= c <= '९')   // Devanagari
    || ('０' <= c <= '９')   // full-width
  }

  /** The regular-expression class `\w`: letters, digits and the underscore. */
  predicate IsWordChar(c: char) {
    IsAsciiLetter(c) || IsDigit(c) || c == '_'
    || IsHangul(c)
    || ('ㄱ' <= c <= 'ㆎ')   // Hangul compatibility jamo
    || ('一' <= c <= '鿿')   // CJK unified ideographs
    || ('À' <= c <= 'ÿ' && c != '×' && c != '÷')
    || ('Α' <= c <= 'ω')   // Greek
    || ('Ѐ' <= c <= 'ӿ')   // Cyrillic
  }

  /** The keyword token class `[가-힣a-zA-Z0-9]`. */
  predicate IsKeywordChar(c: char) {
    IsHangul(c) || IsAsciiLetter(c) || IsAsciiDigit(c)
  }

  /** Python's `str.lower` on one character. */
  function LowerChar(c: char): (r: char)
    ensures IsAsciiLetter(c) ==> 'a' <= r <= 'z'
    ensures 'a' <= c <= 'z' ==> r == c
    ensures 'A' <= c <= 'Z' ==> r as int == c as int + 32
    ensures IsHangul(c) || IsDigit(c) || IsSpace(c) ==> r == c
  {
    if 'A' <= c <= 'Z' then (c as int + 32) as char
    else if 'À' <= c <= 'Þ' && c != '×' then (c as int + 32) as char
    else if 'Α' <= c <= 'Ω' && c != '΢' then (c as int + 32) as char
    else if 'А' <= c <= 'Я' then (c as int + 32) as char
    else c
  }

  /** Python's `str.lower`. */
  function Lower(s: string): (r: string)
    ensures |r| == |s|
    ensures forall i :: 0 <= i < |s| ==> r[i] == LowerChar(s[i])
  {
    seq(|s|, i requires 0 <= i < |s| => LowerChar(s[i]))
  }

  /** Lower-casing twice is lower-casing once. */
  lemma LowerIdempotent(s: string)
    ensures Lower(Lower(s)) == Lower(s)
  {
    forall i | 0 <= i < |s| ensures LowerChar(LowerChar(s[i])) == LowerChar(s[i]) {
    }
  }
}
