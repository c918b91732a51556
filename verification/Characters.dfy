/** The two character tests of the Rust standard library that several modules rest on. */
module Characters {
  /** The characters of the Unicode property White_Space. */
  predicate IsWhitespace(c: char) {
    || '\U{9}' <= c <= '\U{D}' || c == ' ' || c == '\U{85}' || c == '\U{A0}' || c == '\U{1680}'
    || '\U{2000}' <= c <= '\U{200A}' || c == '\U{2028}' || c == '\U{2029}' || c == '\U{202F}'
    || c == '\U{205F}' || c == '\U{3000}'
  }

  function ToAsciiLowercase(c: char): char {
    if 'A' <= c <= 'Z' then c - 'A' + 'a' else c
  }
}
