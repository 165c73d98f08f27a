/** The character classes the matcher's regular expressions use. */
module Chars {

  predicate IsAsciiLetter(c: char) {
    'a' <= c <= 'z' || 'A' <= c <= 'Z'
  }

  /** A word character in the sense of `\b`: `[A-Za-z0-9_]`. */
  predicate IsWordChar(c: char) {
    IsAsciiLetter(c) || '0' <= c <= '9' || c == '_'
  }

  /** A character of the class `[a-zA-Z-]` that a token is made of. */
  predicate IsTokenChar(c: char) {
    IsAsciiLetter(c) || c == '-'
  }

  /** Whitespace in the sense of `\s`: space, tab, line feed, vertical tab, form feed, carriage return. */
  predicate IsSpace(c: char) {
    c == ' ' || c == '\t' || c == '\n' || c == '\U{000B}' || c == '\U{000C}' || c == '\r'
  }

  /** ASCII `downcase` of one character. */
  function DowncaseChar(c: char): (d: char)
    ensures IsTokenChar(c) <==> IsTokenChar(d)
    ensures !('A' <= d <= 'Z')
    ensures 'a' <= c <= 'z' || !IsAsciiLetter(c) ==> d == c
    ensures 'A' <= c <= 'Z' ==> 'a' <= d <= 'z' && d as int - 'a' as int == c as int - 'A' as int
  {
    if 'A' <= c <= 'Z' then (c as int + 32) as char else c
  }
}
