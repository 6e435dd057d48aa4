/** The lexical grammar of numbers (section 6 of RFC 8259) and parse_number's scanner. */
module Numbers {
  import opened CStrings
  import Rfc8259

  predicate Digits(s: bytes) {
    forall i :: 0 <= i < |s| ==> Rfc8259.Digit(s[i])
  }

  predicate Digits1(s: bytes) {
    s != [] && Digits(s)
  }

  datatype ExpSyntax = ExpSyntax(e: byte, sign: bytes, digits: bytes) {
    predicate Wf() {
      (e == LOWER_E || e == UPPER_E) && (sign == [] || sign == [PLUS] || sign == [MINUS]) && Digits1(digits)
    }

    function Text(): bytes {
      [e] + (sign + digits)
    }
  }

  /** `'-'? (0 | [1-9][0-9]*) ('.' [0-9]+)? ([Ee] [+-]? [0-9]+)?` */
  datatype NumberSyntax = NumberSyntax(minus: bool, whole: bytes, frac: Option<bytes>, exp: Option<ExpSyntax>) {
    predicate Wf() {
      && Digits1(whole) && (whole[0] == ZERO ==> whole == [ZERO])
      && (frac.Some? ==> Digits1(frac.value))
      && (exp.Some? ==> exp.value.Wf())
    }

    function ExpText(): bytes {
      if exp.Some? then exp.value.Text() else []
    }

    function FracText(): bytes {
      if frac.Some? then [DOT] + frac.value else []
    }

    function Text(): bytes {
      (if minus then [MINUS] else []) + (whole + (FracText() + ExpText()))
    }
  }

  ghost predicate IsNumber(s: bytes) {
    exists n: NumberSyntax :: n.Wf() && n.Text() == s
  }

  /** Where a `while (is_digit(*s)) s++` loop stops. */
  function SkipDigits(t: bytes): (r: bytes)
    ensures |r| <= |t| && !IsDigit(First(r))
  {
    if IsDigit(First(t)) then SkipDigits(t[1..]) else t
  }

  /** `[0-9]+` */
  function ScanDigits1(t: bytes): (r: Option<bytes>)
    ensures r.Some? ==> |r.value| < |t|
  {
    if IsDigit(First(t)) then Some(SkipDigits(t)) else None
  }

  function ScanMinus(t: bytes): (r: bytes)
    ensures |r| <= |t|
  {
    if First(t) == MINUS then t[1..] else t
  }

  /** `(0 | [1-9][0-9]*)` */
  function ScanWhole(t: bytes): (r: Option<bytes>)
    ensures r.Some? ==> |r.value| < |t|
  {
    if First(t) == ZERO then Some(t[1..]) else ScanDigits1(t)
  }

  function ScanFrac(t: bytes): (r: Option<bytes>)
    ensures r.Some? ==> |r.value| <= |t|
  {
    if First(t) == DOT then ScanDigits1(t[1..]) else Some(t)
  }

  function ScanSign(t: bytes): (r: bytes)
    ensures |r| <= |t|
  {
    if First(t) == PLUS || First(t) == MINUS then t[1..] else t
  }

  function ScanExp(t: bytes): (r: Option<bytes>)
    ensures r.Some? ==> |r.value| <= |t|
  {
    if First(t) == UPPER_E || First(t) == LOWER_E then ScanDigits1(ScanSign(t[1..])) else Some(t)
  }

  /** parse_number without the value: what is left of t after the number, None for failure. */
  function ScanNumber(t: bytes): (r: Option<bytes>)
    ensures r.Some? ==> |r.value| < |t|
  {
    var whole := ScanWhole(ScanMinus(t));
    if whole.None? then None else
    var frac := ScanFrac(whole.value);
    if frac.None? then None else
    ScanExp(frac.value)
  }

  /** A byte that could carry a number further. */
  predicate Continues(c: byte) {
    IsDigit(c) || c == DOT || c == LOWER_E || c == UPPER_E
  }

  lemma {:induction false} SkipDigitsOver(ds: bytes, rest: bytes)
    requires Digits(ds) && !IsDigit(First(rest))
    ensures SkipDigits(ds + rest) == rest
  {
    if ds == [] {
      assert ds + rest == rest;
    } else {
      assert (ds + rest)[1..] == ds[1..] + rest;
      SkipDigitsOver(ds[1..], rest);
    }
  }

  lemma ScanSignOver(sign: bytes, rest: bytes)
    requires sign == [] || sign == [PLUS] || sign == [MINUS]
    requires First(rest) != PLUS && First(rest) != MINUS
    ensures ScanSign(sign + rest) == rest
  {
    if sign == [] { assert sign + rest == rest; }
  }

  lemma ScanExpOver(x: ExpSyntax, rest: bytes)
    requires x.Wf() && !IsDigit(First(rest))
    ensures ScanExp(x.Text() + rest) == Some(rest)
  {
    Assoc([x.e], x.sign + x.digits, rest);
    Assoc(x.sign, x.digits, rest);
    ScanSignOver(x.sign, x.digits + rest);
    SkipDigitsOver(x.digits, rest);
  }

  lemma ScanFracOver(ds: bytes, rest: bytes)
    requires Digits1(ds) && !IsDigit(First(rest))
    ensures ScanFrac([DOT] + ds + rest) == Some(rest)
  {
    assert ([DOT] + ds + rest)[1..] == ds + rest;
    SkipDigitsOver(ds, rest);
  }

  lemma ScanWholeOver(ds: bytes, rest: bytes)
    requires Digits1(ds) && (ds[0] == ZERO ==> ds == [ZERO]) && !IsDigit(First(rest))
    ensures ScanWhole(ds + rest) == Some(rest)
  {
    if ds[0] == ZERO {
      assert (ds + rest)[1..] == rest;
    } else {
      SkipDigitsOver(ds, rest);
    }
  }

  function MinusText(n: NumberSyntax): bytes {
    if n.minus then [MINUS] else []
  }

  lemma TextSplit(n: NumberSyntax, rest: bytes)
    ensures n.Text() + rest == MinusText(n) + (n.whole + (n.FracText() + (n.ExpText() + rest)))
  {
    Assoc(n.FracText(), n.ExpText(), rest);
    Assoc(n.whole, n.FracText() + n.ExpText(), rest);
    Assoc(MinusText(n), n.whole + (n.FracText() + n.ExpText()), rest);
  }

  lemma ScanMinusOver(n: NumberSyntax, rest: bytes)
    requires n.Wf()
    ensures ScanMinus(MinusText(n) + (n.whole + rest)) == n.whole + rest
  {
    assert [] + (n.whole + rest) == n.whole + rest;
  }

  lemma ScanTailOver(n: NumberSyntax, rest: bytes)
    requires n.Wf() && !Continues(First(rest))
    ensures ScanExp(n.ExpText() + rest) == Some(rest)
    ensures ScanFrac(n.FracText() + (n.ExpText() + rest)) == Some(n.ExpText() + rest)
    ensures !IsDigit(First(n.FracText() + (n.ExpText() + rest)))
  {
    var afterFrac := n.ExpText() + rest;
    if n.exp.Some? { ScanExpOver(n.exp.value, rest); } else { assert afterFrac == rest; }
    if n.frac.Some? { ScanFracOver(n.frac.value, afterFrac); } else { assert n.FracText() + afterFrac == afterFrac; }
  }

  /** Every number of the grammar is scanned whole when what follows cannot continue it. */
  lemma ScanComplete(n: NumberSyntax, rest: bytes)
    requires n.Wf() && !Continues(First(rest))
    ensures ScanNumber(n.Text() + rest) == Some(rest)
  {
    var afterWhole := n.FracText() + (n.ExpText() + rest);
    TextSplit(n, rest);
    ScanMinusOver(n, afterWhole);
    ScanTailOver(n, rest);
    ScanWholeOver(n.whole, afterWhole);
  }

  /** The bytes of Continues are exactly those in front of which a number may not be read whole. */
  lemma ContinuesIff(c: byte)
    ensures Continues(c) <==>
            exists n: NumberSyntax, rest: bytes ::
              n.Wf() && First(rest) == c && ScanNumber(n.Text() + rest) != Some(rest)
  {
    if Continues(c) {
      var one := NumberSyntax(false, [0x31], None, None);
      assert one.Text() == [0x31];
      OneCarriedOn(c);
      assert First([c]) == c && ScanNumber(one.Text() + [c]) != Some([c]);
    }
    forall n: NumberSyntax, rest: bytes | n.Wf() && First(rest) == c && !Continues(c)
      ensures ScanNumber(n.Text() + rest) == Some(rest)
    {
      ScanComplete(n, rest);
    }
  }

  lemma OneCarriedOn(c: byte)
    requires Continues(c)
    ensures ScanNumber([0x31] + [c]) != Some([c])
  {
    var t: bytes := [0x31] + [c];
    assert t[1..] == [c] && [c][1..] == [];
    assert SkipDigits(t) == SkipDigits([c]);
  }

  lemma {:induction false} DigitsTaken(t: bytes) returns (ds: bytes)
    ensures Digits(ds) && ds + SkipDigits(t) == t
    ensures IsDigit(First(t)) ==> ds != [] && ds[0] == t[0]
  {
    if IsDigit(First(t)) {
      ds := DigitsTaken(t[1..]);
      ds := [t[0]] + ds;
    } else {
      ds := [];
    }
  }

  lemma SignTaken(t: bytes) returns (sign: bytes)
    ensures sign == [] || sign == [PLUS] || sign == [MINUS]
    ensures sign + ScanSign(t) == t
  {
    sign := if First(t) == PLUS || First(t) == MINUS then [t[0]] else [];
  }

  lemma ExpSound(t: bytes) returns (x: Option<ExpSyntax>)
    requires ScanExp(t).Some?
    ensures x.Some? ==> x.value.Wf()
    ensures (if x.Some? then x.value.Text() else []) + ScanExp(t).value == t
  {
    if First(t) == UPPER_E || First(t) == LOWER_E {
      var sign := SignTaken(t[1..]);
      var ds := DigitsTaken(ScanSign(t[1..]));
      x := Some(ExpSyntax(t[0], sign, ds));
      Assoc(sign, ds, ScanExp(t).value);
      Assoc([t[0]], sign + ds, ScanExp(t).value);
      assert [t[0]] + t[1..] == t;
    } else {
      x := None;
      assert [] + t == t;
    }
  }

  lemma HeadIs(t: bytes, c: byte)
    requires First(t) == c && c != 0
    ensures [c] + t[1..] == t
  {
  }

  lemma FracSound(t: bytes) returns (f: Option<bytes>)
    requires ScanFrac(t).Some?
    ensures f.Some? ==> Digits1(f.value)
    ensures (if f.Some? then [DOT] + f.value else []) + ScanFrac(t).value == t
  {
    if First(t) == DOT {
      var ds := DigitsTaken(t[1..]);
      f := Some(ds);
      var rest := ScanFrac(t).value;
      assert ds + rest == t[1..];
      hide *;
      Assoc([DOT], ds, rest);
      assert [DOT] + t[1..] == t by { HeadIs(t, DOT); }
    } else {
      f := None;
      assert [] + t == t;
    }
  }

  lemma WholeSound(t: bytes) returns (ds: bytes)
    requires ScanWhole(t).Some?
    ensures Digits1(ds) && (ds[0] == ZERO ==> ds == [ZERO])
    ensures ds + ScanWhole(t).value == t
  {
    if First(t) == ZERO {
      ds := [ZERO];
    } else {
      ds := DigitsTaken(t);
    }
  }

  /** What the scanner consumes is a number of the grammar. */
  lemma ScanSound(t: bytes) returns (n: NumberSyntax)
    requires ScanNumber(t).Some?
    ensures n.Wf() && n.Text() + ScanNumber(t).value == t
  {
    var t1 := ScanMinus(t);
    var t2 := ScanWhole(t1).value;
    var t3 := ScanFrac(t2).value;
    var rest := ScanNumber(t).value;
    var whole := WholeSound(t1);
    var f := FracSound(t2);
    var x := ExpSound(t3);
    n := NumberSyntax(First(t) == MINUS, whole, f, x);
    var minus := if n.minus then [MINUS] else [];
    Assoc(n.FracText(), n.ExpText(), rest);
    Assoc(whole, n.FracText() + n.ExpText(), rest);
    Assoc(minus, whole + (n.FracText() + n.ExpText()), rest);
    assert minus + t1 == t;
  }

  /** A text is scanned to its end exactly if it is a number of the grammar. */
  lemma WholeScanIffNumber(s: bytes)
    ensures ScanNumber(s) == Some([]) <==> IsNumber(s)
  {
    if ScanNumber(s) == Some([]) {
      var n := ScanSound(s);
      assert n.Text() + [] == n.Text();
    }
    forall n: NumberSyntax | n.Wf() && n.Text() == s ensures ScanNumber(s) == Some([]) {
      ScanComplete(n, []);
      assert s + [] == s;
    }
  }

  /** number_is_valid */
  predicate NumberIsValid(buf: bytes) {
    match ScanNumber(buf)
    case None => false
    case Some(rest) => First(rest) == 0
  }

  /** number_is_valid holds of exactly the numbers of the grammar. */
  lemma NumberIsValidIff(buf: bytes)
    requires NulFree(buf)
    ensures NumberIsValid(buf) <==> IsNumber(buf)
  {
    WholeScanIffNumber(buf);
    if NumberIsValid(buf) {
      var n := ScanSound(buf);
      NulFreeConcat(n.Text(), ScanNumber(buf).value);
    }
  }

  lemma {:induction false} SkipDigitsLongest(ds: bytes, rest: bytes)
    requires Digits(ds)
    ensures SkipDigits(ds + rest) == SkipDigits(rest)
  {
    if ds == [] {
      assert ds + rest == rest;
    } else {
      assert (ds + rest)[1..] == ds[1..] + rest;
      SkipDigitsLongest(ds[1..], rest);
    }
  }

  lemma ExpLongest(n: NumberSyntax, rest: bytes)
    requires n.Wf()
    ensures var r := ScanExp(n.ExpText() + rest); r.Some? ==> |r.value| <= |rest|
  {
    if n.exp.Some? {
      var x := n.exp.value;
      Assoc([x.e], x.sign + x.digits, rest);
      Assoc(x.sign, x.digits, rest);
      ScanSignOver(x.sign, x.digits + rest);
      SkipDigitsLongest(x.digits, rest);
    } else {
      assert n.ExpText() + rest == rest;
    }
  }

  lemma FracLongest(n: NumberSyntax, rest: bytes)
    requires n.Wf()
    ensures var f := ScanFrac(n.FracText() + (n.ExpText() + rest));
            f.Some? && ScanExp(f.value).Some? ==> |ScanExp(f.value).value| <= |rest|
  {
    var after := n.ExpText() + rest;
    ExpLongest(n, rest);
    if n.frac.Some? {
      Assoc([DOT], n.frac.value, after);
      SkipDigitsLongest(n.frac.value, after);
      if n.exp.None? { assert after == rest; }
    } else {
      assert n.FracText() + after == after;
    }
  }

  lemma WholeLongest(n: NumberSyntax, after: bytes)
    requires n.Wf()
    ensures ScanWhole(n.whole + after) == Some(after)
            || (IsDigit(First(after)) && ScanWhole(n.whole + after) == Some(SkipDigits(after)))
  {
    if n.whole[0] == ZERO {
      assert (n.whole + after)[1..] == after;
    } else {
      SkipDigitsLongest(n.whole, after);
    }
  }

  /** The scanner is greedy: no number of the grammar that t starts with is longer than the one it consumes. */
  lemma ScanLongest(n: NumberSyntax, rest: bytes)
    requires n.Wf()
    ensures ScanNumber(n.Text() + rest).Some? ==> |ScanNumber(n.Text() + rest).value| <= |rest|
  {
    var after := n.FracText() + (n.ExpText() + rest);
    TextSplit(n, rest);
    ScanMinusOver(n, after);
    WholeLongest(n, after);
    FracLongest(n, rest);
    if IsDigit(First(after)) {
      assert after == rest;
    }
  }
}
