/** JSON values and the function the parser computes, on the text alone. */
module Json {
  import opened CStrings
  import opened Numbers
  import opened Strings

  /** The bit pattern of an IEEE double; never interpreted. */
  type Double = bits: nat | bits < 0x1_0000_0000_0000_0000

  datatype Json =
    | Null
    | Bool(b: bool)
    | Str(s: bytes)
    | Num(n: Double)
    | Arr(elems: seq<Json>)
    | Obj(members: seq<Member>)

  datatype Member = Member(key: bytes, value: Json)

  /**
   * Behind a number: nothing that parse_number or strtod would read on with. Of the two only strtod takes
   * `0x` for the start of a hexadecimal number.
   */
  predicate Ends(rest: bytes) {
    !Continues(First(rest)) && First(rest) != LOWER_X && First(rest) != UPPER_X
  }

  /** The two foreign calls: `strtod(s, NULL)` and `sprintf(buf, "%.16g", d)`. */
  datatype LibcCalls = LibcCalls(strtod: bytes -> Double, sprintf: Double -> bytes) {
    /** strtod gets the whole remaining text and reads the number it starts with; sprintf writes a C string. */
    ghost predicate Conforms() {
      && (forall n: bytes, rest: bytes :: IsNumber(n) && Ends(rest) ==> strtod(n + rest) == strtod(n))
      && (forall d: Double :: NulFree(sprintf(d)))
    }
  }

  type Libc = c: LibcCalls | c.Conforms() witness LibcCalls(_ => 0, _ => [])

  datatype ValueScan = Fail | Ok(value: Json, rest: bytes)

  /** expect_literal: the text behind a literal t starts with. */
  predicate Expects(t: bytes, literal: bytes) {
    literal <= t
  }

  /** parse_value */
  function ScanValue(libc: Libc, t: bytes): (r: ValueScan)
    ensures r.Ok? ==> |r.rest| < |t|
    decreases |t|, 0
  {
    var c := First(t);
    if c == LOWER_N then if Expects(t, NULL_TEXT) then Ok(Null, t[4..]) else Fail
    else if c == LOWER_F then if Expects(t, FALSE_TEXT) then Ok(Bool(false), t[5..]) else Fail
    else if c == LOWER_T then if Expects(t, TRUE_TEXT) then Ok(Bool(true), t[4..]) else Fail
    else if c == QUOTE then
      match ScanString(t)
      case Bad => Fail
      case Good(s, rest) => Ok(Str(s), rest)
    else if c == LBRACKET then ScanArray(libc, t[1..])
    else if c == LBRACE then ScanObject(libc, t[1..])
    else
      match ScanNumber(t)
      case None => Fail
      case Some(rest) => Ok(Num(libc.strtod(t)), rest)
  }

  /** parse_array behind the opening bracket */
  function ScanArray(libc: Libc, t: bytes): (r: ValueScan)
    ensures r.Ok? ==> |r.rest| < |t|
    decreases |t|, 2
  {
    var t := SkipSpace(t);
    if First(t) == RBRACKET then Ok(Arr([]), t[1..]) else ScanElems(libc, t, [])
  }

  /** parse_array's loop, with the elements appended so far */
  function ScanElems(libc: Libc, t: bytes, acc: seq<Json>): (r: ValueScan)
    ensures r.Ok? ==> |r.rest| < |t|
    decreases |t|, 1
  {
    match ScanValue(libc, t)
    case Fail => Fail
    case Ok(v, rest) =>
      var rest := SkipSpace(rest);
      if First(rest) == RBRACKET then Ok(Arr(acc + [v]), rest[1..])
      else if First(rest) == COMMA then ScanElems(libc, SkipSpace(rest[1..]), acc + [v])
      else Fail
  }

  lemma ScanElemsStep(libc: Libc, t: bytes, acc: seq<Json>)
    ensures ScanElems(libc, t, acc) ==
            var r := ScanValue(libc, t);
            if r.Fail? then Fail else
            var rest := SkipSpace(r.rest);
            if First(rest) == RBRACKET then Ok(Arr(acc + [r.value]), rest[1..])
            else if First(rest) == COMMA then ScanElems(libc, SkipSpace(rest[1..]), acc + [r.value])
            else Fail
  {
  }

  /** parse_object behind the opening brace */
  function ScanObject(libc: Libc, t: bytes): (r: ValueScan)
    ensures r.Ok? ==> |r.rest| < |t|
    decreases |t|, 2
  {
    var t := SkipSpace(t);
    if First(t) == RBRACE then Ok(Obj([]), t[1..]) else ScanMembers(libc, t, [])
  }

  /** The key, the colon and the blank space around it: what is left is the member's value. */
  function ScanKey(t: bytes): (r: Scan)
    ensures r.Good? ==> |r.rest| < |t|
  {
    match ScanString(t)
    case Bad => Bad
    case Good(key, rest) =>
      var rest := SkipSpace(rest);
      if First(rest) == COLON then Good(key, SkipSpace(rest[1..])) else Bad
  }

  lemma ScanKeyStep(t: bytes)
    ensures ScanKey(t) ==
            var r := ScanString(t);
            if r.Bad? || First(SkipSpace(r.rest)) != COLON then Bad
            else Good(r.content, SkipSpace(SkipSpace(r.rest)[1..]))
  {
    hide ScanString, SkipSpace;
  }

  /** parse_object's loop, with the members appended so far */
  function ScanMembers(libc: Libc, t: bytes, acc: seq<Member>): (r: ValueScan)
    ensures r.Ok? ==> |r.rest| < |t|
    decreases |t|, 1
  {
    match ScanKey(t)
    case Bad => Fail
    case Good(key, rest) =>
      match ScanValue(libc, rest)
      case Fail => Fail
      case Ok(v, rest) =>
        var rest := SkipSpace(rest);
        var acc := acc + [Member(key, v)];
        if First(rest) == RBRACE then Ok(Obj(acc), rest[1..])
        else if First(rest) == COMMA then ScanMembers(libc, SkipSpace(rest[1..]), acc)
        else Fail
  }

  lemma ScanMembersStep(libc: Libc, t: bytes, acc: seq<Member>)
    ensures ScanMembers(libc, t, acc) ==
            var k := ScanKey(t);
            if k.Bad? then Fail else
            var r := ScanValue(libc, k.rest);
            if r.Fail? then Fail else
            var rest := SkipSpace(r.rest);
            var acc' := acc + [Member(k.content, r.value)];
            if First(rest) == RBRACE then Ok(Obj(acc'), rest[1..])
            else if First(rest) == COMMA then ScanMembers(libc, SkipSpace(rest[1..]), acc')
            else Fail
  {
  }

  /** json_decode; None is the NULL it returns for a text that is not JSON. */
  function Decode(libc: Libc, json: bytes): Option<Json> {
    match ScanValue(libc, SkipSpace(json))
    case Fail => None
    case Ok(v, rest) => if First(SkipSpace(rest)) == 0 then Some(v) else None
  }
}
