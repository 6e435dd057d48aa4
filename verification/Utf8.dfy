/** The UTF-8 validator, reader and writer, and what they mean for whole strings. */
module Utf8 {
  import opened CStrings

  /** Unicode scalar values: U+0000 to U+10FFFF without the surrogates. */
  predicate Scalar(u: nat) {
    u <= 0x10FFFF && !(0xD800 <= u <= 0xDFFF)
  }

  /** `(c & 0xC0) == 0x80` */
  predicate Continuation(c: byte) {
    c / 64 == 2
  }

  /**
   * The length of the UTF-8 character s starts with, 0 if there is none (the terminator counts as a
   * character of length 1, as in the C function).
   */
  function CharLen(s: bytes): (n: nat)
    ensures s != [] ==> n <= |s|
    ensures n <= 4
  {
    var c := At(s, 0);
    if c <= 0x7F then 1
    else if c <= 0xC1 then 0
    else if c <= 0xDF then
      if !Continuation(At(s, 1)) then 0 else 2
    else if c <= 0xEF then
      if c == 0xE0 && At(s, 1) < 0xA0 then 0
      else if c == 0xED && At(s, 1) > 0x9F then 0
      else if !Continuation(At(s, 1)) then 0
      else if !Continuation(At(s, 2)) then 0
      else 3
    else if c <= 0xF4 then
      if c == 0xF0 && At(s, 1) < 0x90 then 0
      else if c == 0xF4 && At(s, 1) > 0x8F then 0
      else if !Continuation(At(s, 1)) then 0
      else if !Continuation(At(s, 2)) then 0
      else if !Continuation(At(s, 3)) then 0
      else 4
    else 0
  }

  /** utf8_read_char: the code point of the character s starts with. */
  function ReadChar(s: bytes): nat
    requires s != [] && CharLen(s) != 0
  {
    var c: nat := s[0];
    if c <= 0x7F then c
    else if c <= 0xDF then 64 * (c % 32) + Low6(s[1])
    else if c <= 0xEF then 4096 * (c % 16) + 64 * Low6(s[1]) + Low6(s[2])
    else 262144 * (c % 8) + 4096 * Low6(s[1]) + 64 * Low6(s[2]) + Low6(s[3])
  }

  /** `c & 0x3F` */
  function Low6(c: byte): nat {
    c % 64
  }

  /** utf8_write_char: the bytes of one code point. */
  function WriteChar(u: nat): (s: bytes)
    requires Scalar(u)
    ensures 1 <= |s| <= 4
    ensures NulFree(s) <==> u != 0
  {
    if u <= 0x7F then assert [u as int][0] == u; [u]
    else if u <= 0x7FF then [0xC0 + u / 64, 0x80 + u % 64]
    else if u <= 0xFFFF then [0xE0 + u / 4096, 0x80 + u / 64 % 64, 0x80 + u % 64]
    else [0xF0 + u / 262144, 0x80 + u / 4096 % 64, 0x80 + u / 64 % 64, 0x80 + u % 64]
  }

  lemma Base64Digits(u: nat)
    ensures u == 64 * (u / 64) + u % 64
    ensures u == 4096 * (u / 4096) + 64 * (u / 64 % 64) + u % 64
    ensures u == 262144 * (u / 262144) + 4096 * (u / 4096 % 64) + 64 * (u / 64 % 64) + u % 64
  {
    assert u / 4096 == u / 64 / 64;
    assert u / 262144 == u / 4096 / 64;
  }

  lemma Base64DigitsUnique(a: nat, b: nat, c: nat, d: nat)
    requires b < 64 && c < 64 && d < 64
    ensures var u := 262144 * a + 4096 * b + 64 * c + d;
            u / 262144 == a && u / 4096 % 64 == b && u / 64 % 64 == c && u % 64 == d
  {
    var u := 262144 * a + 4096 * b + 64 * c + d;
    assert u / 64 == 4096 * a + 64 * b + c;
    assert u / 4096 == 64 * a + b;
  }

  lemma ReadTwo(s: bytes, y: nat, x: nat)
    requires |s| >= 2 && 2 <= y < 32 && x < 64
    requires s[0] == 0xC0 + y && s[1] == 0x80 + x
    ensures CharLen(s) == 2 && ReadChar(s) == 64 * y + x
  {
  }

  lemma ReadThree(s: bytes, z: nat, y: nat, x: nat)
    requires |s| >= 3 && z < 16 && y < 64 && x < 64
    requires (z == 0 ==> y >= 32) && (z == 13 ==> y < 32)
    requires s[0] == 0xE0 + z && s[1] == 0x80 + y && s[2] == 0x80 + x
    ensures CharLen(s) == 3 && ReadChar(s) == 4096 * z + 64 * y + x
  {
  }

  lemma ReadFour(s: bytes, w: nat, z: nat, y: nat, x: nat)
    requires |s| >= 4 && w < 5 && z < 64 && y < 64 && x < 64
    requires (w == 0 ==> z >= 16) && (w == 4 ==> z < 16)
    requires s[0] == 0xF0 + w && s[1] == 0x80 + z && s[2] == 0x80 + y && s[3] == 0x80 + x
    ensures CharLen(s) == 4 && ReadChar(s) == 262144 * w + 4096 * z + 64 * y + x
  {
  }

  /** Reading back what was written, whatever follows it. */
  lemma ReadAfterWrite(u: nat, rest: bytes)
    requires Scalar(u)
    ensures var s := WriteChar(u) + rest;
            && CharLen(s) == |WriteChar(u)|
            && ReadChar(s) == u
  {
    Base64Digits(u);
    var s := WriteChar(u) + rest;
    assert forall i :: 0 <= i < |WriteChar(u)| ==> s[i] == WriteChar(u)[i];
    if u <= 0x7F {
    } else if u <= 0x7FF {
      ReadTwo(s, u / 64, u % 64);
    } else if u <= 0xFFFF {
      ReadThree(s, u / 4096, u / 64 % 64, u % 64);
    } else {
      ReadFour(s, u / 262144, u / 4096 % 64, u / 64 % 64, u % 64);
    }
  }

  lemma LeadByte(s: bytes)
    requires s != [] && CharLen(s) != 0
    ensures CharLen(s) == 1 ==> s[0] <= 0x7F
    ensures CharLen(s) == 2 ==> s[0] == 0xC0 + s[0] % 32 && s[0] % 32 >= 2
    ensures CharLen(s) == 3 ==> s[0] == 0xE0 + s[0] % 16
    ensures CharLen(s) == 4 ==> s[0] == 0xF0 + s[0] % 8
    ensures forall i :: 1 <= i < CharLen(s) ==> s[i] == 0x80 + Low6(s[i])
  {
    forall i | 1 <= i < CharLen(s) ensures s[i] == 0x80 + Low6(s[i]) {
      assert Continuation(s[i]);
    }
  }

  /** The second of three bytes leaves out overlong forms and surrogates. */
  lemma ThreeBytes(s: bytes)
    requires s != [] && CharLen(s) == 3
    ensures (s[0] % 16 == 0 ==> Low6(s[1]) >= 32) && (s[0] % 16 == 13 ==> Low6(s[1]) < 32)
  {
    LeadByte(s);
    assert Continuation(s[1]);
  }

  /** The second of four bytes leaves out overlong forms and what lies behind U+10FFFF. */
  lemma FourBytes(s: bytes)
    requires s != [] && CharLen(s) == 4
    ensures s[0] % 8 < 5 && (s[0] % 8 == 0 ==> Low6(s[1]) >= 16) && (s[0] % 8 == 4 ==> Low6(s[1]) < 16)
  {
    LeadByte(s);
    assert Continuation(s[1]);
  }

  lemma WriteTwo(s: bytes, y: nat, x: nat)
    requires |s| >= 2 && 2 <= y < 32 && x < 64
    requires s[0] == 0xC0 + y && s[1] == 0x80 + x
    ensures CharLen(s) == 2 && ReadChar(s) == 64 * y + x && ReadChar(s) != 0
    ensures Scalar(ReadChar(s)) && WriteChar(ReadChar(s)) == s[..2]
  {
    ReadTwo(s, y, x);
    Base64DigitsUnique(0, 0, y, x);
    hide CharLen, ReadChar;
  }

  lemma WriteThree(s: bytes, z: nat, y: nat, x: nat)
    requires |s| >= 3 && z < 16 && y < 64 && x < 64
    requires (z == 0 ==> y >= 32) && (z == 13 ==> y < 32)
    requires s[0] == 0xE0 + z && s[1] == 0x80 + y && s[2] == 0x80 + x
    ensures CharLen(s) == 3 && ReadChar(s) == 4096 * z + 64 * y + x && ReadChar(s) != 0
    ensures Scalar(ReadChar(s)) && WriteChar(ReadChar(s)) == s[..3]
  {
    ReadThree(s, z, y, x);
    Base64DigitsUnique(0, z, y, x);
    hide CharLen, ReadChar;
  }

  lemma WriteFour(s: bytes, w: nat, z: nat, y: nat, x: nat)
    requires |s| >= 4 && w < 5 && z < 64 && y < 64 && x < 64
    requires (w == 0 ==> z >= 16) && (w == 4 ==> z < 16)
    requires s[0] == 0xF0 + w && s[1] == 0x80 + z && s[2] == 0x80 + y && s[3] == 0x80 + x
    ensures CharLen(s) == 4 && ReadChar(s) == 262144 * w + 4096 * z + 64 * y + x && ReadChar(s) != 0
    ensures Scalar(ReadChar(s)) && WriteChar(ReadChar(s)) == s[..4]
  {
    ReadFour(s, w, z, y, x);
    Base64DigitsUnique(w, z, y, x);
    hide CharLen, ReadChar;
  }

  /** Writing back what was read: no overlong form and no surrogate passes the validator. */
  lemma WriteAfterRead(s: bytes)
    requires s != [] && CharLen(s) != 0
    ensures Scalar(ReadChar(s)) && (s[0] != 0 ==> ReadChar(s) != 0)
    ensures WriteChar(ReadChar(s)) == s[..CharLen(s)]
  {
    LeadByte(s);
    if CharLen(s) == 2 {
      WriteTwo(s, s[0] % 32, Low6(s[1]));
    } else if CharLen(s) == 3 {
      ThreeBytes(s);
      WriteThree(s, s[0] % 16, Low6(s[1]), Low6(s[2]));
    } else if CharLen(s) == 4 {
      FourBytes(s);
      WriteFour(s, s[0] % 8, Low6(s[1]), Low6(s[2]), Low6(s[3]));
    }
  }

  /** utf8_validate_cz at offset i of s, with the reads in the order the C code makes them. */
  method ValidateChar(s: bytes, i: nat) returns (n: nat)
    requires NulFree(s) && i <= |s|
    ensures n == CharLen(s[i..])
  {
    var c := Peek(s, i);
    if c <= 0x7F {
      return 1;
    } else if c <= 0xC1 {
      return 0;
    } else if c <= 0xDF {
      if !Continuation(Peek(s, i + 1)) { return 0; }
      return 2;
    } else if c <= 0xEF {
      if c == 0xE0 && Peek(s, i + 1) < 0xA0 { return 0; }
      if c == 0xED && Peek(s, i + 1) > 0x9F { return 0; }
      if !Continuation(Peek(s, i + 1)) { return 0; }
      if !Continuation(Peek(s, i + 2)) { return 0; }
      return 3;
    } else if c <= 0xF4 {
      if c == 0xF0 && Peek(s, i + 1) < 0x90 { return 0; }
      if c == 0xF4 && Peek(s, i + 1) > 0x8F { return 0; }
      if !Continuation(Peek(s, i + 1)) { return 0; }
      if !Continuation(Peek(s, i + 2)) { return 0; }
      if !Continuation(Peek(s, i + 3)) { return 0; }
      return 4;
    } else {
      return 0;
    }
  }

  /** What utf8_validate accepts. */
  predicate Valid(s: bytes) {
    s == [] || (CharLen(s) != 0 && Valid(s[CharLen(s)..]))
  }

  /** utf8_validate: the loop over the characters of s. */
  method Validate(s: bytes) returns (ok: bool)
    requires NulFree(s)
    ensures ok <==> Valid(s)
  {
    var i := 0;
    while Peek(s, i) != 0
      invariant 0 <= i <= |s|
      invariant Valid(s) <==> Valid(s[i..])
      decreases |s| - i
    {
      var len := ValidateChar(s, i);
      if len == 0 {
        return false;
      }
      i := i + len;
    }
    return true;
  }

  /** A string of non-zero scalar values, the characters a C string can hold. */
  predicate Scalars(us: seq<nat>) {
    forall i :: 0 <= i < |us| ==> Scalar(us[i]) && us[i] != 0
  }

  function WriteAll(us: seq<nat>): (s: bytes)
    requires Scalars(us)
    ensures NulFree(s)
  {
    if us == [] then [] else WriteChar(us[0]) + WriteAll(us[1..])
  }

  /** Stepping through s with utf8_read_char. */
  function ReadAll(s: bytes): (us: seq<nat>)
    requires Valid(s)
  {
    if s == [] then [] else [ReadChar(s)] + ReadAll(s[CharLen(s)..])
  }

  /** utf8_read_char recovers exactly the scalars written, and their encoding is always valid. */
  lemma {:induction false} ReadAllAfterWriteAll(us: seq<nat>)
    requires Scalars(us)
    ensures Valid(WriteAll(us)) && ReadAll(WriteAll(us)) == us
  {
    if us != [] {
      ReadAfterWrite(us[0], WriteAll(us[1..]));
      ReadAllAfterWriteAll(us[1..]);
      assert WriteAll(us)[|WriteChar(us[0])|..] == WriteAll(us[1..]);
    }
  }

  /** Every valid string is the encoding of the scalars read from it. */
  lemma {:induction false} WriteAllAfterReadAll(s: bytes)
    requires NulFree(s) && Valid(s)
    ensures Scalars(ReadAll(s)) && WriteAll(ReadAll(s)) == s
  {
    if s != [] {
      WriteAfterRead(s);
      WriteAllAfterReadAll(s[CharLen(s)..]);
      assert s == s[..CharLen(s)] + s[CharLen(s)..];
    }
  }

  /** utf8_validate accepts exactly the encodings of non-zero scalar strings (RFC 3629, sections 3 and 4). */
  lemma ValidIffEncoding(s: bytes)
    requires NulFree(s)
    ensures Valid(s) <==> exists us :: Scalars(us) && WriteAll(us) == s
  {
    if Valid(s) {
      WriteAllAfterReadAll(s);
    }
    forall us | Scalars(us) && WriteAll(us) == s ensures Valid(s) {
      ReadAllAfterWriteAll(us);
    }
  }

  /** The decomposition into scalars is unique. */
  lemma EncodingInjective(us: seq<nat>, vs: seq<nat>)
    requires Scalars(us) && Scalars(vs) && WriteAll(us) == WriteAll(vs)
    ensures us == vs
  {
    ReadAllAfterWriteAll(us);
    ReadAllAfterWriteAll(vs);
  }

  // -------------------------------------------------------------------- order

  /** The lexicographic order: a prefix comes before what it is a prefix of. */
  predicate Before(a: seq<int>, b: seq<int>) {
    if a == [] || b == [] then a == [] && b != []
    else a[0] < b[0] || (a[0] == b[0] && Before(a[1..], b[1..]))
  }

  lemma {:induction false} FirstDifference(a: seq<int>, b: seq<int>, i: nat)
    requires i < |a| && i < |b| && a[..i] == b[..i] && a[i] < b[i]
    ensures Before(a, b) && !Before(b, a)
  {
    if i > 0 {
      assert a[0] == a[..i][0] == b[..i][0] == b[0];
      assert a[1..][..i - 1] == a[..i][1..] == b[..i][1..] == b[1..][..i - 1];
      FirstDifference(a[1..], b[1..], i - 1);
    }
  }

  lemma {:induction false} CommonPrefix(p: seq<int>, a: seq<int>, b: seq<int>)
    ensures Before(p + a, p + b) <==> Before(a, b)
  {
    if p == [] {
      assert p + a == a && p + b == b;
    } else {
      assert (p + a)[1..] == p[1..] + a && (p + b)[1..] == p[1..] + b;
      CommonPrefix(p[1..], a, b);
    }
  }

  lemma LeadOfLength(u: nat)
    requires Scalar(u)
    ensures var a := WriteChar(u);
            && (u <= 0x7F <==> |a| == 1) && (0x7F < u <= 0x7FF <==> |a| == 2) && (0x7FF < u <= 0xFFFF <==> |a| == 3)
            && a[0] <= 0xF4 && (|a| == 1 ==> a[0] <= 0x7F) && (|a| == 2 ==> 0xC2 <= a[0] <= 0xDF)
            && (|a| == 3 ==> 0xE0 <= a[0] <= 0xEF) && (|a| == 4 ==> 0xF0 <= a[0])
  {
  }

  /** Where two numbers of three base-64 digits differ first. */
  lemma FirstDigit(z: nat, y: nat, x: nat, z': nat, y': nat, x': nat) returns (i: nat)
    requires y < 64 && x < 64 && y' < 64 && x' < 64
    requires 4096 * z + 64 * y + x < 4096 * z' + 64 * y' + x'
    ensures i == 0 ==> z < z'
    ensures i == 1 ==> z == z' && y < y'
    ensures i == 2 ==> z == z' && y == y' && x < x'
    ensures i <= 2
  {
    i := if z < z' then 0 else if y < y' then 1 else 2;
  }

  lemma LastDigits(u: nat, v: nat) returns (i: nat)
    requires 0xFFFF < u < v <= 0x10FFFF
    ensures i < 4 && WriteChar(u)[..i] == WriteChar(v)[..i] && WriteChar(u)[i] < WriteChar(v)[i]
  {
    Base64Digits(u);
    Base64Digits(v);
    if u / 262144 < v / 262144 {
      i := 0;
    } else {
      i := FirstDigit(u / 4096 % 64, u / 64 % 64, u % 64, v / 4096 % 64, v / 64 % 64, v % 64);
      i := i + 1;
    }
  }

  /** Where the encodings of two characters differ first, and in the order of the characters. */
  lemma CharsDiffer(u: nat, v: nat) returns (i: nat)
    requires Scalar(u) && Scalar(v) && u < v
    ensures var a, b := WriteChar(u), WriteChar(v);
            i < |a| && i < |b| && a[..i] == b[..i] && a[i] < b[i]
  {
    LeadOfLength(u);
    LeadOfLength(v);
    Base64Digits(u);
    Base64Digits(v);
    if |WriteChar(u)| != |WriteChar(v)| || u <= 0x7F {
      i := 0;
    } else if u <= 0x7FF {
      i := if u / 64 < v / 64 then 0 else 1;
    } else if u <= 0xFFFF {
      i := FirstDigit(u / 4096, u / 64 % 64, u % 64, v / 4096, v / 64 % 64, v % 64);
    } else {
      i := LastDigits(u, v);
    }
  }

  /** Strings compare byte by byte as they do character by character (section 1 of RFC 3629). */
  lemma {:induction false} EncodingKeepsOrder(us: seq<nat>, vs: seq<nat>)
    requires Scalars(us) && Scalars(vs)
    ensures Before(WriteAll(us), WriteAll(vs)) <==> Before(us, vs)
  {
    if us != [] && vs != [] {
      var a, b := WriteAll(us[1..]), WriteAll(vs[1..]);
      if us[0] == vs[0] {
        CommonPrefix(WriteChar(us[0]), a, b);
        EncodingKeepsOrder(us[1..], vs[1..]);
      } else if us[0] < vs[0] {
        var i := CharsDiffer(us[0], vs[0]);
        Extended(WriteChar(us[0]), WriteChar(vs[0]), a, b, i);
      } else {
        var i := CharsDiffer(vs[0], us[0]);
        Extended(WriteChar(vs[0]), WriteChar(us[0]), b, a, i);
      }
    }
  }

  lemma Extended(p: bytes, q: bytes, a: bytes, b: bytes, i: nat)
    requires i < |p| && i < |q| && p[..i] == q[..i] && p[i] < q[i]
    ensures Before(p + a, q + b) && !Before(q + b, p + a)
  {
    assert (p + a)[..i] == p[..i] && (q + b)[..i] == q[..i];
    FirstDifference(p + a, q + b, i);
  }
}
