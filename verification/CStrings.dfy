/** Bytes, byte constants and NUL-terminated strings as the C code sees them. */
module CStrings {
  import Rfc8259

  type byte = b: int | 0 <= b < 256
  type bytes = seq<byte>

  datatype Option<+T> = None | Some(value: T)

  const TAB: byte := 0x09
  const LF: byte := 0x0A
  const CR: byte := 0x0D
  const BLANK: byte := 0x20
  const QUOTE: byte := 0x22
  const PLUS: byte := 0x2B
  const COMMA: byte := 0x2C
  const MINUS: byte := 0x2D
  const DOT: byte := 0x2E
  const SLASH: byte := 0x2F
  const ZERO: byte := 0x30
  const NINE: byte := 0x39
  const COLON: byte := 0x3A
  const UPPER_E: byte := 0x45
  const UPPER_X: byte := 0x58
  const LBRACKET: byte := 0x5B
  const BACKSLASH: byte := 0x5C
  const RBRACKET: byte := 0x5D
  const LOWER_B: byte := 0x62
  const LOWER_E: byte := 0x65
  const LOWER_F: byte := 0x66
  const LOWER_N: byte := 0x6E
  const LOWER_R: byte := 0x72
  const LOWER_T: byte := 0x74
  const LOWER_U: byte := 0x75
  const LOWER_X: byte := 0x78
  const LBRACE: byte := 0x7B
  const RBRACE: byte := 0x7D

  const NULL_TEXT: bytes := [0x6E, 0x75, 0x6C, 0x6C]
  const TRUE_TEXT: bytes := [0x74, 0x72, 0x75, 0x65]
  const FALSE_TEXT: bytes := [0x66, 0x61, 0x6C, 0x73, 0x65]

  /** The bytes of an ASCII text. */
  function Ascii(text: string): (s: bytes)
    requires forall i :: 0 <= i < |text| ==> text[i] as int < 0x80
    ensures |s| == |text|
  {
    seq(|text|, i requires 0 <= i < |text| => text[i] as int)
  }

  /** The constants are the ASCII codes of the characters they are named for. */
  lemma ConstantsAreAscii()
    ensures Ascii(" \t\n\r") == [BLANK, TAB, LF, CR]
    ensures Ascii("[]{},:") == [LBRACKET, RBRACKET, LBRACE, RBRACE, COMMA, COLON]
    ensures Ascii("+-.09") == [PLUS, MINUS, DOT, ZERO, NINE] && Ascii("eExX") == [LOWER_E, UPPER_E, LOWER_X, UPPER_X]
    ensures Ascii("\"\\/") == [QUOTE, BACKSLASH, SLASH]
    ensures Ascii("bfnrtu") == [LOWER_B, LOWER_F, LOWER_N, LOWER_R, LOWER_T, LOWER_U]
    ensures Ascii("null") == NULL_TEXT && Ascii("true") == TRUE_TEXT && Ascii("false") == FALSE_TEXT
  {
  }

  /** A C string is a byte sequence without NUL; the terminator itself is implicit. */
  predicate NulFree(s: bytes) {
    forall i :: 0 <= i < |s| ==> s[i] != 0
  }

  /**
   * The byte at offset i of a C string, as the C code fetches it: the terminator is the last byte that
   * may be read, so the precondition is that no read runs past it.
   */
  function Peek(s: bytes, i: nat): (c: byte)
    requires i <= |s|
    ensures c == First(s[i..])
  {
    if i < |s| then s[i] else 0
  }

  /** The byte at offset i, 0 from the terminator on; for specifications. */
  function At(s: bytes, i: nat): byte {
    if i < |s| then s[i] else 0
  }

  /** `*s` in C, for a pointer standing for the suffix s. */
  function First(s: bytes): byte {
    if s == [] then 0 else s[0]
  }

  predicate IsSpace(c: byte) {
    c == TAB || c == LF || c == CR || c == BLANK
  }

  predicate IsDigit(c: byte) {
    ZERO <= c <= NINE
  }

  /** Insignificant whitespace of the grammar. */
  predicate AllSpace(s: bytes) {
    forall i :: 0 <= i < |s| ==> Rfc8259.Ws(s[i])
  }

  /** is_space and is_digit accept exactly what the grammar calls blank space and digits. */
  lemma ClassesOfRfc8259(c: byte)
    ensures IsSpace(c) <==> Rfc8259.Ws(c)
    ensures IsDigit(c) <==> Rfc8259.Digit(c)
  {
  }

  /** The suffix skip_space stops at. */
  function SkipSpace(s: bytes): (r: bytes)
    ensures |r| <= |s| && !IsSpace(First(r))
  {
    if IsSpace(First(s)) then SkipSpace(s[1..]) else s
  }

  lemma {:induction false} SkipSpaceOver(ws: bytes, rest: bytes)
    requires AllSpace(ws) && !IsSpace(First(rest))
    ensures SkipSpace(ws + rest) == rest
  {
    if ws == [] {
      assert ws + rest == rest;
    } else {
      assert (ws + rest)[1..] == ws[1..] + rest;
      SkipSpaceOver(ws[1..], rest);
    }
  }

  lemma {:induction false} SpaceSkipped(s: bytes) returns (ws: bytes)
    ensures AllSpace(ws) && ws + SkipSpace(s) == s
  {
    if IsSpace(First(s)) {
      ws := SpaceSkipped(s[1..]);
      ws := [s[0]] + ws;
    } else {
      ws := [];
    }
  }

  /** strlen of the C string that starts a memory block. */
  function StrLen(block: bytes): (n: nat)
    ensures n <= |block|
    ensures NulFree(block[..n])
    ensures n < |block| ==> block[n] == 0
  {
    if First(block) == 0 then 0 else 1 + StrLen(block[1..])
  }

  /** The C string stored in a memory block. */
  function CStr(block: bytes): (s: bytes)
    ensures NulFree(s)
  {
    block[..StrLen(block)]
  }

  predicate Terminated(block: bytes) {
    StrLen(block) < |block|
  }

  lemma {:induction false} StrLenIs(block: bytes, n: nat)
    requires n < |block| && NulFree(block[..n]) && block[n] == 0
    ensures StrLen(block) == n
  {
    if n > 0 {
      assert block[..n][0] == block[0];
      assert block[1..][..n - 1] == block[..n][1..];
      StrLenIs(block[1..], n - 1);
    }
  }

  /** m with the bytes s at offset a. */
  function Overwritten(m: bytes, a: nat, s: bytes): (r: bytes)
    requires a + |s| <= |m|
    ensures |r| == |m|
  {
    m[..a] + s + m[a + |s|..]
  }

  lemma OverwrittenAt(m: bytes, a: nat, s: bytes, i: nat)
    requires a + |s| <= |m| && i < |m|
    ensures Overwritten(m, a, s)[i] == if a <= i < a + |s| then s[i - a] else m[i]
  {
  }

  lemma Assoc(a: bytes, b: bytes, c: bytes)
    ensures a + b + c == a + (b + c)
  {
  }

  lemma NulFreeConcat(a: bytes, b: bytes)
    ensures NulFree(a + b) <==> NulFree(a) && NulFree(b)
  {
    forall i | 0 <= i < |a| ensures (a + b)[i] == a[i] {}
    forall i | 0 <= i < |b| ensures (a + b)[|a| + i] == b[i] {}
  }
}
