/**
 * The characters of the JSON grammar as RFC 8259 lists them. The grammar is written with these and the
 * scanners have predicates of their own, so that the theorems relating the two say something of both.
 */
module Rfc8259 {
  /** Section 2: space, horizontal tab, line feed or carriage return. */
  predicate Ws(c: nat) {
    c == 0x20 || c == 0x09 || c == 0x0A || c == 0x0D
  }

  /** DIGIT, as appendix B.1 of RFC 5234 defines it. */
  predicate Digit(c: nat) {
    0x30 <= c <= 0x39
  }

  /** Section 7: the characters that may stand for themselves in a string. */
  predicate Unescaped(u: nat) {
    0x20 <= u <= 0x21 || 0x23 <= u <= 0x5B || 0x5D <= u <= 0x10FFFF
  }

  /** Section 7: the code point of the two-character escape that ends in c, 0 if there is none. */
  function Escape(c: nat): nat {
    match c
    case 0x22 => 0x22   // quotation mark
    case 0x5C => 0x5C   // reverse solidus
    case 0x2F => 0x2F   // solidus
    case 0x62 => 0x08   // b: backspace
    case 0x66 => 0x0C   // f: form feed
    case 0x6E => 0x0A   // n: line feed
    case 0x72 => 0x0D   // r: carriage return
    case 0x74 => 0x09   // t: tab
    case _ => 0
  }

  /** The code point of a UTF-16 surrogate pair (section 2.1 of RFC 2781). */
  function PairScalar(hi: nat, lo: nat): nat
    requires hi >= 0xD800 && lo >= 0xDC00
  {
    0x10000 + (hi - 0xD800) * 0x400 + (lo - 0xDC00)
  }
}
