/** Every text of JsonGrammar is read with its value, exactly if it is short and flat enough. */
module JsonReading {
  import opened Options
  import opened JsonSpec
  import opened JsonSteps
  import opened JsonString
  import opened JsonRoundTrip
  import opened JsonGrammar
  import JsonLiteral

  /** What a reader makes of a text that it should leave rest of: it is refused, or only the start of a number is read. */
  ghost predicate Reads<T>(r: Result<T>, ok: bool, v: T, rest: string) {
    if ok then r == Ok(v, rest) else r.Fail? || (r.rest != "" && Numeric(r.rest[0]))
  }

  // ---------- Tables ----------

  /** The letters and digits of the code are those of the RFC. */
  lemma LettersAgree(c: char)
    ensures Unescape(c) == Letter(c)
  {
  }

  lemma DigitsAgree(c: char)
    ensures HexValue(c) == HexOf(c)
    ensures Digit(c) <==> DecimalOf(c).Some?
    ensures Digit(c) ==> DigitValue(c) == DecimalOf(c).value
  {
  }

  /** The bytes that belong to numbers. */
  lemma NumericBytes(c: char)
    ensures Numeric(c) <==> DecimalOf(c).Some? || c == '+' || c == '-' || c == 'e' || c == 'E' || c == '.'
  {
  }

  lemma FourDigitsAgree(e: string)
    requires |e| == 6
    ensures FourDigits(e) <==> forall i | 2 <= i < 6 :: HexValue(e[i]).Some?
  {
    DigitsAgree(e[2]);
    DigitsAgree(e[3]);
    DigitsAgree(e[4]);
    DigitsAgree(e[5]);
    hide HexValue, HexOf;
  }

  /** What the code makes of four digits, and of four bytes that are none. */
  lemma HexAgrees(e: string)
    requires |e| == 6
    ensures ParseHex4(e[2..]) ==
            if FourDigits(e) then 4096 * HexOf(e[2]).value + 256 * HexOf(e[3]).value + 16 * HexOf(e[4]).value + HexOf(e[5]).value else 0
  {
    DigitsAgree(e[2]);
    DigitsAgree(e[3]);
    DigitsAgree(e[4]);
    DigitsAgree(e[5]);
    hide HexValue, HexOf;
    var s := e[2..];
    assert s[0] == e[2] && s[1] == e[3] && s[2] == e[4] && s[3] == e[5];
  }

  lemma EscapesAgree(e: string, h: nat)
    ensures EscapeOf(e, h) <==> IsEscape(e, h)
  {
    hide HexValue, HexOf, ParseHex4, FourDigits;
    if |e| == 6 {
      FourDigitsAgree(e);
      HexAgrees(e);
    }
  }

  lemma UnicodeAgrees(e: string, cp: nat)
    requires UnicodeOf(e, cp)
    ensures EscapedForm(e, cp)
  {
    hide EscapeOf, IsEscape;
    if cp < 0x10000 {
      EscapesAgree(e, cp);
    } else {
      EscapesAgree(e[..6], 0xD800 + (cp - 0x10000) / 0x400);
      EscapesAgree(e[6..], 0xDC00 + (cp - 0x10000) % 0x400);
    }
  }

  lemma SameTens(k: nat)
    ensures Tens(k) == Pow10(k)
  {
    if k > 0 {
      SameTens(k - 1);
    }
  }

  /** From the front or from the back, digits write the same number. */
  lemma {:induction false} DecimalSnoc(d: string, c: char)
    requires DecimalDigits(d) && DecimalOf(c).Some?
    ensures DecimalDigits(d + [c]) && Decimal(d + [c]) == 10 * Decimal(d) + DecimalOf(c).value
  {
    hide DecimalOf;
    if d == "" {
      assert d + [c] == [c];
      assert Decimal([c][1..]) == 0 && Tens(0) == 1;
    } else {
      DecimalSnoc(d[1..], c);
      assert (d + [c])[1..] == d[1..] + [c];
      TensNext(|d| - 1, DecimalOf(d[0]).value);
    }
  }

  lemma TensNext(k: nat, n: nat)
    ensures Tens(k + 1) * n == 10 * (Tens(k) * n)
  {
    assert Tens(k + 1) == 10 * Tens(k);
  }

  lemma {:induction false} DecimalIsNatValue(d: string)
    requires DecimalDigits(d)
    ensures NatValue(d) == Decimal(d)
  {
    if d != "" {
      var n := |d| - 1;
      DecimalIsNatValue(d[..n]);
      DecimalSnoc(d[..n], d[n]);
      DigitsAgree(d[n]);
      assert d == d[..n] + [d[n]];
    }
  }

  lemma DigitString(d: string)
    requires DecimalDigits(d)
    ensures forall i | 0 <= i < |d| :: Digit(d[i])
  {
    forall i | 0 <= i < |d|
      ensures Digit(d[i])
    {
      DigitsAgree(d[i]);
    }
  }

  // ---------- Whitespace ----------

  lemma {:induction false} SkipSpaces(w: string, s: string)
    requires Spaces(w) && Terminated(s)
    ensures Terminated(w + s) && SkipWs(w + s) == SkipWs(s)
  {
    if w == "" {
      assert w + s == s;
    } else {
      SkipSpaces(w[1..], s);
      SkipOne(w[0], w[1..] + s);
      assert w + s == [w[0]] + (w[1..] + s);
    }
  }

  /** Whitespace in front of a byte that belongs to no number. */
  lemma SpacesAfter(w: string, s: string)
    requires Spaces(w) && After(s)
    ensures After(w + s) && SkipWs(w + s) == SkipWs(s)
  {
    SkipSpaces(w, s);
    assert (w + s)[0] == if w == "" then s[0] else w[0];
  }

  lemma SpacesCString(w: string)
    requires Spaces(w)
    ensures CString(w)
  {
  }

  // ---------- Strings ----------

  lemma HexPlain(c: char)
    requires HexOf(c).Some?
    ensures c != '\"' && c != '\\' && c != NUL
  {
  }

  lemma EscapeBytes(e: string)
    requires |e| == 6 && e[0] == '\\' && e[1] == 'u' && FourDigits(e)
    ensures CString(e) && forall i | 2 <= i < 6 :: e[i] != '\"' && e[i] != '\\'
  {
    hide HexOf;
    HexPlain(e[2]);
    HexPlain(e[3]);
    HexPlain(e[4]);
    HexPlain(e[5]);
  }

  lemma EscapeScan(e: string, t: string)
    requires |e| == 6 && e[0] == '\\' && e[1] == 'u' && FourDigits(e)
    ensures ScanString(e + t) == Shift(6, ScanString(t)) && CString(e)
  {
    hide ScanString, FourDigits;
    EscapeBytes(e);
    var t5 := [e[5]] + t;
    var t4 := [e[4]] + t5;
    var t3 := [e[3]] + t4;
    var t2 := [e[2]] + t3;
    ScanPlain(e[5], t);
    ScanPlain(e[4], t5);
    ScanPlain(e[3], t4);
    ScanPlain(e[2], t3);
    ScanEscape(e[1], t2);
    assert e + t == ['\\', e[1]] + t2;
  }

  lemma PairScan(e: string, t: string)
    requires |e| == 12 && e[0] == '\\' && e[1] == 'u' && e[6] == '\\' && e[7] == 'u' && FourDigits(e[..6]) && FourDigits(e[6..])
    ensures ScanString(e + t) == Shift(12, ScanString(t)) && CString(e)
  {
    hide ScanString, FourDigits;
    EscapeScan(e[6..], t);
    EscapeScan(e[..6], e[6..] + t);
    assert e + t == e[..6] + (e[6..] + t);
    assert e == e[..6] + e[6..];
  }

  lemma CharScan(c: Char, t: string)
    requires CharOk(c)
    ensures ScanString(CharText(c) + t) == Shift(|CharText(c)|, ScanString(t)) && CString(CharText(c))
  {
    hide ScanString, FourDigits;
    match c
    case Plain(b) => ScanPlain(b, t);
    case Simple(l) => ScanEscape(l, t);
    case Unicode(e, cp) =>
      if cp < 0x10000 {
        EscapeScan(e, t);
      } else {
        PairScan(e, t);
      }
  }

  lemma CharDecodes(c: Char, t: string)
    requires CharOk(c) && t != ""
    ensures Decode(CharText(c) + t) == Prepend(CharBytes(c), Decode(t))
  {
    hide Decode, UnicodeOf, EncodeUtf8, EscapedForm;
    match c
    case Plain(b) => PlainDecode(b, t);
    case Simple(l) =>
      LettersAgree(l);
      SimpleDecode(l, Letter(l).value, t);
    case Unicode(e, cp) =>
      UnicodeAgrees(e, cp);
      OneDecodes(e, cp, t);
  }

  /** Both passes over the bytes of a string and what follows them. */
  lemma {:induction false} CharsDecode(cs: seq<Char>, t: string)
    requires CharsOk(cs) && t != ""
    ensures CString(Chars(cs))
    ensures ScanString(Chars(cs) + t) == Shift(|Chars(cs)|, ScanString(t))
    ensures Decode(Chars(cs) + t) == Prepend(Bytes(cs), Decode(t))
  {
    hide CharOk, CharText, CharBytes, Decode, ScanString;
    if cs == [] {
      assert Chars(cs) + t == t;
      assert Decode(t).Some? ==> "" + Decode(t).value == Decode(t).value;
    } else {
      var e := Chars(cs[1..]);
      CharsDecode(cs[1..], t);
      CharScan(cs[0], e + t);
      CharDecodes(cs[0], e + t);
      assert Chars(cs) + t == CharText(cs[0]) + (e + t);
      JsonLiteral.PrependTwice(CharBytes(cs[0]), Bytes(cs[1..]), Decode(t));
    }
  }

  lemma {:induction false} HidesScan(t: string, rest: string)
    requires Hides(t)
    ensures ScanString(t + "\"" + rest) == Some(|t|)
    decreases |t|
  {
    var s := t + "\"" + rest;
    if t == "" {
      assert s == "\"" + rest;
    } else if t[0] == '\\' {
      HidesScan(t[2..], rest);
      assert s[2..] == t[2..] + "\"" + rest;
    } else {
      HidesScan(t[1..], rest);
      assert s[1..] == t[1..] + "\"" + rest;
    }
  }

  /** What the tail of a string decodes to: nothing, or something that starts with a NUL. */
  lemma TailDecodes(tail: string)
    requires TailOk(tail)
    ensures CString(tail) && Hides(tail)
    ensures var d := Decode(tail + "\""); d.Some? && (d.value == "" || d.value[0] == NUL)
  {
    hide Decode, FourDigits;
    if tail == "" {
      DecodeNothing("\"");
      assert tail + "\"" == "\"";
    } else {
      var e, rest := tail[..6], tail[6..] + "\"";
      SameFourDigits(tail);
      HexAgrees(e);
      NulBytes();
      HexEscapeDecodes(e, rest);
      assert tail + "\"" == e + rest;
    }
  }

  lemma SameFourDigits(t: string)
    requires |t| >= 6
    ensures FourDigits(t[..6]) == FourDigits(t)
  {
  }

  lemma NulBytes()
    ensures EncodeUtf8(0) == [NUL]
  {
  }

  lemma {:induction false} SeenUpToNul(a: string, b: string)
    requires b == "" || b[0] == NUL
    ensures CStr(a + b) == CStr(a)
  {
    if a == "" {
      assert a + b == b;
    } else {
      SeenUpToNul(a[1..], b);
      assert (a + b)[1..] == a[1..] + b;
    }
  }

  /** A string is read as its UTF-8 form, up to the first NUL. */
  lemma ReadString(cs: seq<Char>, tail: string, rest: string)
    requires CharsOk(cs) && TailOk(tail) && Terminated(rest)
    ensures CString(Quoted(cs, tail)) && Terminated(Quoted(cs, tail) + rest)
    ensures ParseString(Quoted(cs, tail) + rest) == Ok(Seen(cs), rest)
  {
    hide Chars, Decode, ScanString, CStr, Terminated, Bytes, TailOk, Hides;
    var body := Chars(cs) + tail;
    var t, n := Quoted(cs, tail) + rest, |body|;
    TailDecodes(tail);
    HidesScan(tail, rest);
    CharsDecode(cs, tail + "\"" + rest);
    CharsDecode(cs, tail + "\"");
    SeenUpToNul(Bytes(cs), Decode(tail + "\"").value);
    TerminatedConcat(Quoted(cs, tail), rest);
    assert t[0] == '\"';
    assert t[1..] == body + "\"" + rest == Chars(cs) + (tail + "\"" + rest);
    assert t[1..n + 2] == body + "\"" == Chars(cs) + (tail + "\"");
    assert t[n + 2..] == rest;
  }

  // ---------- Numbers ----------

  predicate AllNumeric(s: string) {
    forall i | 0 <= i < |s| :: Numeric(s[i])
  }

  lemma DigitsNumeric(d: string)
    requires DecimalDigits(d)
    ensures AllNumeric(d)
  {
    DigitString(d);
  }

  lemma ExponentNumeric(e: Option<Exponent>)
    requires e.Some? ==> ExponentOk(e.value)
    ensures AllNumeric(ExponentText(e)) && (ExponentText(e) != "" ==> !Digit(ExponentText(e)[0]) && ExponentText(e)[0] != '.')
  {
    if e.Some? {
      DigitsNumeric(e.value.digits);
    }
  }

  lemma NumeralNumeric(v: Value)
    requires v.NumberText? && NumberOk(v)
    ensures AllNumeric(Numeral(v)) && CString(Numeral(v)) && Numeral(v) != ""
    ensures Numeral(v)[0] == '-' || Digit(Numeral(v)[0])
  {
    ExponentNumeric(v.exp);
    DigitsNumeric(v.whole);
    DigitsNumeric(FractionDigits(v.frac));
    DigitString(v.whole);
    hide ExponentText, DecimalDigits, ExponentOk;
    var a, f, e := (if v.minus then "-" else "") + v.whole, Fraction(v.frac), ExponentText(v.exp);
    assert AllNumeric(a) && AllNumeric(f);
    assert AllNumeric(a + f);
    assert AllNumeric(a + f + e);
    assert !Numeric(NUL);
  }

  lemma {:induction false} DigitRunStops(d: string, t: string)
    requires (forall i | 0 <= i < |d| :: Digit(d[i])) && (t != "" ==> !Digit(t[0]))
    ensures DigitRun(d + t) == |d|
  {
    if d == "" {
      assert d + t == t;
    } else {
      assert (d + t)[1..] == d[1..] + t;
      DigitRunStops(d[1..], t);
    }
  }

  /** The parts of three strings put together. */
  lemma Cut(a: string, b: string, c: string)
    ensures var s := a + b + c;
            s == a + (b + c) && s[|a|..] == b + c && s[|a|..|a| + |b|] == b && s[|a| + |b|..] == c
  {
  }

  /** A mark, and behind it a sign and digits. */
  lemma ExponentIs(mark: char, t: string, sign: nat, d: string)
    requires (mark == 'e' || mark == 'E') && sign == SignLength(t) && sign <= |t| && t[sign..] == d
    requires d != "" && DigitRun(d) == |d|
    ensures ExponentPart([mark] + t) == (Signed(t, NatValue(d)), 1 + |t|)
  {
    hide NatValue, DigitRun, SignLength, Signed;
    var s := [mark] + t;
    assert s[1..] == t && s[1 + sign..] == d;
    assert s[1 + sign..1 + sign + |d|] == d;
  }

  lemma ReadExponent(e: Option<Exponent>)
    requires e.Some? ==> ExponentOk(e.value)
    ensures ExponentPart(ExponentText(e)) == (ExponentValue(e), |ExponentText(e)|)
  {
    hide NatValue, DigitRun, ExponentPart, SignLength, Signed, Decimal, DecimalDigits, Digit;
    if e.Some? {
      var x := e.value;
      DigitString(x.digits);
      DigitRunAll(x.digits);
      DecimalIsNatValue(x.digits);
      ReadSignedExponent(x.mark, x.sign, x.digits, x.sign + x.digits);
      Assoc([x.mark], x.sign, x.digits);
    } else {
      NoExponent();
    }
  }

  predicate IsSign(sign: string) {
    sign == "" || sign == "+" || sign == "-"
  }

  function SignedBy(sign: string, n: nat): int {
    if sign == "-" then 0 - n else n
  }

  lemma ReadSignedExponent(mark: char, sign: string, d: string, t: string)
    requires (mark == 'e' || mark == 'E') && IsSign(sign) && t == sign + d
    requires d != "" && Digit(d[0]) && DigitRun(d) == |d|
    ensures ExponentPart([mark] + t) == (SignedBy(sign, NatValue(d)), 1 + |t|)
  {
    assert d[0] != '+' && d[0] != '-';
    hide NatValue, DigitRun, ExponentPart, SignLength, Signed, Digit, IsSign, SignedBy;
    SignOf(sign, d, NatValue(d));
    Behind(sign, d);
    ExponentIs(mark, t, |sign|, d);
  }

  lemma Behind(a: string, b: string)
    ensures (a + b)[|a|..] == b && |a| <= |a + b|
  {
  }

  lemma NoExponent()
    ensures ExponentPart("") == (0, 0)
  {
  }

  lemma SignOf(sign: string, d: string, n: nat)
    requires IsSign(sign) && d != "" && d[0] != '+' && d[0] != '-'
    ensures SignLength(sign + d) == |sign| && Signed(sign + d, n) == SignedBy(sign, n)
  {
    assert (sign + d)[0] == if sign == "" then d[0] else sign[0];
  }

  lemma StrtodIs(s: string, sign: nat, whole: nat, point: nat, frac: nat, e: int, n: nat)
    requires SignLength(s) == sign && sign <= |s| && DigitRun(s[sign..]) == whole && sign + whole <= |s|
    requires point == if sign + whole < |s| && s[sign + whole] == '.' then 1 else 0
    requires frac == if point == 1 then DigitRun(s[sign + whole + 1..]) else 0
    requires whole + frac > 0 && sign + whole + point + frac <= |s| && ExponentPart(s[sign + whole + point + frac..]) == (e, n)
    ensures var digits := s[sign..sign + whole] + (if point == 1 then s[sign + whole + 1..sign + whole + point + frac] else "");
            Strtod(s) == Some((Signed(s, NatValue(digits)), e - frac, sign + whole + point + frac + n))
  {
    hide SignLength, DigitRun, ExponentPart, Signed, NatValue;
  }

  /** What may follow the digits of a number: nothing, or the mark of an exponent. */
  predicate EndsDigits(e: string) {
    e != "" ==> !Digit(e[0]) && e[0] != '.'
  }

  /** What follows the digits in front of the point. */
  lemma FractionFirst(frac: Option<string>, e: string)
    requires EndsDigits(e)
    ensures var t := Fraction(frac) + e;
            && (t != "" ==> !Digit(t[0]))
            && (t != "" && t[0] == '.' <==> frac.Some?)
            && (frac.Some? ==> t[1..] == frac.value + e)
  {
    assert frac.None? ==> Fraction(frac) + e == e;
    assert frac.Some? ==> (Fraction(frac) + e)[0] == '.';
  }

  lemma StrtodNumeral(v: Value)
    requires v.NumberText? && NumberOk(v)
    ensures Strtod(Numeral(v)) == Some((NumberValue(v).mantissa, NumberValue(v).exponent, |Numeral(v)|))
  {
    hide NatValue, ExponentPart, ExponentText, ExponentValue, ExponentOk, Strtod, Fraction, Decimal;
    ExponentNumeric(v.exp);
    ReadExponent(v.exp);
    DigitString(v.whole);
    DigitString(FractionDigits(v.frac));
    DecimalIsNatValue(v.whole + FractionDigits(v.frac));
    StrtodText(if v.minus then "-" else "", v.whole, v.frac, ExponentText(v.exp), ExponentValue(v.exp));
  }

  /** The digits, the fraction and the exponent of s behind a sign. */
  predicate Parts(s: string, sign: nat, whole: string, f: string, e: string) {
    sign + |whole| + |f| + |e| == |s| && s[sign..sign + |whole|] == whole && s[sign + |whole|..] == f + e && s[sign + |whole| + |f|..] == e
  }

  predicate OnlyDigits(d: string) {
    forall i | 0 <= i < |d| :: Digit(d[i])
  }

  lemma StrtodText(sg: string, whole: string, frac: Option<string>, e: string, value: int)
    requires (sg == "" || sg == "-") && OnlyDigits(whole) && OnlyDigits(FractionDigits(frac)) && whole + FractionDigits(frac) != ""
    requires EndsDigits(e) && ExponentPart(e) == (value, |e|)
    ensures var s, n := sg + whole + Fraction(frac) + e, NatValue(whole + FractionDigits(frac));
            Strtod(s) == Some((if sg == "-" then 0 - n else n, value - |FractionDigits(frac)|, |s|))
  {
    hide NatValue, DigitRun, ExponentPart, Strtod, SignLength, Signed, Fraction, Digit, OnlyDigits, Parts, EndsDigits;
    var t := whole + (Fraction(frac) + e);
    var s := sg + whole + Fraction(frac) + e;
    DigitsInFront(whole, frac, e);
    NumeralSplit(sg, whole, Fraction(frac), e);
    SignOf(sg, t, NatValue(whole + FractionDigits(frac)));
    if frac.None? {
      StrtodInteger(s, |sg|, whole, e, value);
    } else {
      StrtodFraction(s, |sg|, whole, frac.value, e, value);
    }
  }

  lemma NoFraction(s: string, sign: nat, whole: string, e: string)
    requires Parts(s, sign, whole, "", e) && EndsDigits(e)
    ensures var a := sign + |whole|;
            a + |e| == |s| && s[sign..a] == whole && (a < |s| ==> s[a] != '.') && s[a..] == e
  {
    hide Digit;
    PointAt(s, sign + |whole|, None, e);
  }

  lemma StrtodInteger(s: string, sign: nat, whole: string, e: string, value: int)
    requires Parts(s, sign, whole, Fraction(None), e) && sign == SignLength(s) && whole != "" && DigitRun(s[sign..]) == |whole|
    requires EndsDigits(e) && ExponentPart(e) == (value, |e|)
    ensures Strtod(s) == Some((Signed(s, NatValue(whole + "")), value, |s|))
  {
    hide NatValue, DigitRun, ExponentPart, Strtod, SignLength, Signed, Parts, EndsDigits;
    NoFraction(s, sign, whole, e);
    StrtodIs(s, sign, |whole|, 0, 0, value, |e|);
  }

  /** Where the point, the digits behind it and the exponent are. */
  lemma FractionParts(s: string, sign: nat, whole: string, frac: string, e: string)
    requires Parts(s, sign, whole, Fraction(Some(frac)), e) && OnlyDigits(frac) && EndsDigits(e)
    ensures var a := sign + |whole|;
            && a + 1 + |frac| + |e| == |s| && s[sign..a] == whole && s[a] == '.'
            && DigitRun(s[a + 1..]) == |frac| && s[a + 1..a + 1 + |frac|] == frac && s[a + 1 + |frac|..] == e
  {
    DigitRunStops(frac, e);
    hide Fraction, Digit, DigitRun, OnlyDigits, EndsDigits;
    FractionLength(frac);
    PointAt(s, sign + |whole|, Some(frac), e);
  }

  lemma StrtodFraction(s: string, sign: nat, whole: string, frac: string, e: string, value: int)
    requires Parts(s, sign, whole, Fraction(Some(frac)), e) && sign == SignLength(s) && DigitRun(s[sign..]) == |whole|
    requires whole + frac != "" && OnlyDigits(frac) && EndsDigits(e) && ExponentPart(e) == (value, |e|)
    ensures Strtod(s) == Some((Signed(s, NatValue(whole + frac)), value - |frac|, |s|))
  {
    hide NatValue, DigitRun, ExponentPart, Strtod, SignLength, Signed, Fraction, OnlyDigits, Parts, EndsDigits;
    FractionParts(s, sign, whole, frac, e);
    StrtodIs(s, sign, |whole|, 1, |frac|, value, |e|);
  }

  lemma DigitsInFront(whole: string, frac: Option<string>, e: string)
    requires OnlyDigits(whole) && EndsDigits(e) && whole + FractionDigits(frac) != ""
    ensures var t := whole + (Fraction(frac) + e);
            DigitRun(t) == |whole| && t != "" && t[0] != '+' && t[0] != '-' && (frac.None? ==> whole != "")
  {
    hide DigitRun, Fraction;
    FractionFirst(frac, e);
    DigitRunStops(whole, Fraction(frac) + e);
    if whole == "" {
      assert whole + (Fraction(frac) + e) == Fraction(frac) + e;
    }
  }

  lemma FractionLength(frac: string)
    ensures |Fraction(Some(frac))| == |frac| + 1
  {
  }

  lemma NumeralSplit(sg: string, whole: string, f: string, e: string)
    ensures var s := sg + whole + f + e;
            s == sg + (whole + (f + e)) && s[|sg|..] == whole + (f + e) && Parts(s, |sg|, whole, f, e)
  {
    Cut(sg, whole, f + e);
    Cut(sg + whole, f, e);
    Assoc(sg + whole, f, e);
  }

  /** The point and the digits behind it, for a text that goes on with them at a. */
  lemma PointAt(s: string, a: nat, frac: Option<string>, e: string)
    requires a <= |s| && s[a..] == Fraction(frac) + e && EndsDigits(e)
    ensures a < |s| && s[a] == '.' <==> frac.Some?
    ensures frac.Some? ==> s[a + 1..] == frac.value + e && a + 1 + |frac.value| <= |s| && s[a + 1..a + 1 + |frac.value|] == frac.value
  {
    FractionFirst(frac, e);
    hide Fraction;
    assert a < |s| ==> s[a] == s[a..][0];
    if frac.Some? {
      assert s[a + 1..] == s[a..][1..];
      assert s[a + 1..a + 1 + |frac.value|] == s[a + 1..][..|frac.value|];
    }
  }

  lemma {:induction false} NumericRunCut(d: string, t: string, max: nat)
    requires max <= |d| && AllNumeric(d)
    ensures NumericRun(d + t, max) == max
  {
    if max > 0 {
      assert (d + t)[1..] == d[1..] + t;
      NumericRunCut(d[1..], t, max - 1);
    }
  }

  /** A number is read with its value exactly if it has at most 63 bytes. Of a longer one some bytes are left. */
  lemma ReadNumber(v: Value, rest: string)
    requires v.NumberText? && NumberOk(v) && After(rest)
    ensures Terminated(Numeral(v) + rest)
    ensures Reads(ParseNumber(Numeral(v) + rest), |Numeral(v)| <= 63, NumberValue(v), rest)
  {
    hide Strtod, Numeral, NumericRun, Terminated, NumberValue, NumberOk, Numeric;
    var d := Numeral(v);
    var s := d + rest;
    NumeralNumeric(v);
    TerminatedConcat(d, rest);
    if |d| <= 63 {
      NumericRunAll(d, rest, 63);
      assert s[..|d|] == d && s[|d|..] == rest;
      StrtodNumeral(v);
      NumberIsNumber(v);
    } else {
      NumericRunCut(d, rest, 63);
      var p := Strtod(s[..63]);
      if p.Some? {
        assert s[p.value.2..][0] == d[p.value.2];
      }
    }
  }

  lemma NumberIsNumber(v: Value)
    requires v.NumberText? && NumberOk(v)
    ensures NumberValue(v) == Json.Number(NumberValue(v).mantissa, NumberValue(v).exponent)
  {
  }

  // ---------- Values ----------

  /** The first byte tells what a text is. */
  lemma TextFirst(v: Value)
    requires Accepted(v)
    ensures Text(v) != "" && Text(v)[0] > ' ' && Text(v)[0] != ']'
  {
    if v.NumberText? {
      NumeralNumeric(v);
    }
  }

  lemma {:induction false} TextCString(v: Value)
    requires Accepted(v)
    ensures CString(Text(v))
    decreases v, 0
  {
    hide NumberOk, Numeral, Quoted, CharsOk, TailOk;
    match v
    case NumberText(_, _, _, _) => NumeralNumeric(v);
    case StringText(cs, tail) => ReadString(cs, tail, [NUL]);
    case ArrayText(_, items) => ItemsCString(items);
    case ObjectText(_, members) => EntriesCString(members);
    case _ =>
  }

  lemma {:induction false} ItemCString(item: Item)
    requires ItemOk(item)
    ensures CString(ItemText(item))
    decreases item, 1
  {
    hide Text, Accepted;
    TextCString(item.value);
  }

  lemma {:induction false} ItemsCString(items: seq<Item>)
    requires forall i | 0 <= i < |items| :: ItemOk(items[i])
    ensures CString(ItemsText(items))
    decreases items, 2
  {
    hide ItemOk, ItemText;
    if items != [] {
      ItemCString(items[0]);
      ItemsCString(items[1..]);
    }
  }

  lemma {:induction false} EntryCString(e: Entry)
    requires EntryOk(e)
    ensures ItemOk(e.item) && CString(EntryText(e))
    decreases e, 2
  {
    hide ItemText, Quoted, CharsOk, TailOk;
    assert ItemOk(e.item);
    ItemCString(e.item);
    ReadString(e.key, e.tail, [NUL]);
  }

  lemma {:induction false} EntriesCString(members: seq<Entry>)
    requires forall i | 0 <= i < |members| :: EntryOk(members[i])
    ensures CString(EntriesText(members))
    decreases members, 3
  {
    hide EntryOk, EntryText;
    if members != [] {
      EntryCString(members[0]);
      EntriesCString(members[1..]);
    }
  }

  predicate AllShort(items: seq<Item>) {
    forall i | 0 <= i < |items| :: Short(items[i].value)
  }

  /** The items of the entries. */
  function Items(members: seq<Entry>): (items: seq<Item>)
    ensures |items| == |members|
    ensures forall i | 0 <= i < |members| :: items[i] == members[i].item
  {
    seq(|members|, i requires 0 <= i < |members| => members[i].item)
  }

  predicate ItemsReadable(items: seq<Item>, depth: nat)
  {
    AllShort(items) && depth + ItemsDepth(items) <= 1000
  }

  predicate EntriesReadable(members: seq<Entry>, depth: nat)
  {
    AllShort(Items(members)) && depth + EntriesDepth(members) <= 1000
  }

  lemma ReadWord(v: Value, depth: nat, rest: string)
    requires (v.NullText? || v.FalseText? || v.TrueText?) && After(rest)
    ensures Terminated(Text(v) + rest) && ParseValue(Text(v) + rest, depth) == Ok(ValueOf(v), rest)
  {
    hide ParseValue, Terminated, Numeric;
    ParseNull(rest, depth);
    ParseFalse(rest, depth);
    ParseTrue(rest, depth);
  }

  lemma ReadNumberValue(v: Value, depth: nat, rest: string)
    requires v.NumberText? && NumberOk(v) && After(rest)
    ensures Terminated(Numeral(v) + rest)
    ensures Reads(ParseValue(Numeral(v) + rest, depth), |Numeral(v)| <= 63, NumberValue(v), rest)
  {
    hide Terminated, ParseValue, ParseNumber, Numeric, Numeral, NumberOk, NumberValue, NoWord;
    var s := Numeral(v) + rest;
    NumeralNumeric(v);
    ReadNumber(v, rest);
    NoWordFirst(s);
    ValueIsOther(s, depth);
  }

  lemma ReadStringValue(cs: seq<Char>, tail: string, depth: nat, rest: string)
    requires CharsOk(cs) && TailOk(tail) && Terminated(rest)
    ensures Terminated(Quoted(cs, tail) + rest) && ParseValue(Quoted(cs, tail) + rest, depth) == Ok(String(Seen(cs)), rest)
  {
    hide Terminated, ParseValue, ParseString, Quoted, CharsOk, TailOk, Seen, NoWord;
    ReadString(cs, tail, rest);
    QuotedFirst(cs, tail, rest);
    NoWordFirst(Quoted(cs, tail) + rest);
    ValueIsOther(Quoted(cs, tail) + rest, depth);
  }

  /** A text of the grammar in front of anything that cannot extend a number: exactly if its numbers are short and it
      is not nested too deeply it is read, with its value. Otherwise it is refused, or it is a number read in part. */
  lemma {:induction false} ReadText(v: Value, depth: nat, rest: string)
    requires Accepted(v) && After(rest) && depth <= 1000
    ensures Terminated(Text(v) + rest)
    ensures Reads(ParseValue(Text(v) + rest, depth), Readable(v, depth), ValueOf(v), rest)
    decreases v, 0
  {
    hide Terminated, ParseValue, Numeric, Quoted, Numeral, NumberOk, NumberValue, CharsOk, TailOk, Seen, Spaces;
    match v
    case NumberText(_, _, _, _) =>
      ReadNumberValue(v, depth, rest);
      NumberIsNumber(v);
    case StringText(cs, tail) => ReadStringValue(cs, tail, depth, rest);
    case ArrayText(w, items) => ReadArray(w, items, depth, rest);
    case ObjectText(w, members) => ReadObject(w, members, depth, rest);
    case _ => ReadWord(v, depth, rest);
  }

  lemma QuotedFirst(cs: seq<Char>, tail: string, rest: string)
    ensures (Quoted(cs, tail) + rest)[0] == '\"'
  {
  }

  /** An array; s is what follows the bracket. */
  lemma ParseValueBracket(s: string, depth: nat)
    requires Terminated(s)
    ensures Terminated("[" + s)
    ensures ParseValue("[" + s, depth) ==
            if depth >= 1000 then Fail
            else if SkipWs(s)[0] == ']' then Ok(Array([]), SkipWs(s)[1..])
            else ArrayValue(ParseItems(s, depth + 1))
  {
    hide Terminated, ParseItems, ParseValue, SkipWs;
    var t := "[" + s;
    TerminatedConcat("[", s);
    SkipTwice(s);
    ParseItemsSkip(s, SkipWs(s), depth + 1);
    NoWordFirst(t);
    ValueIsArray(t, depth);
    assert t[1..] == s;
  }

  /** A closing byte and what follows it. */
  lemma CloseFirst(close: string, rest: string)
    requires (close == "]" || close == "}" || close == "," || close == ":") && Terminated(rest)
    ensures var s := close + rest;
            After(s) && s[0] == close[0] && s[1..] == rest && SkipWs(s) == s
  {
    TerminatedConcat(close, rest);
    SkipNothing(close + rest);
  }

  lemma {:induction false} ReadArray(w: string, items: seq<Item>, depth: nat, rest: string)
    requires Spaces(w) && (forall i | 0 <= i < |items| :: ItemOk(items[i])) && Terminated(rest) && depth <= 1000
    ensures var s := "[" + (if items == [] then w else ItemsText(items)) + "]" + rest;
            && Terminated(s)
            && ParseValue(s, depth) == Expect(ItemsReadable(items, depth + 1), Array(ItemValues(items)), rest)
    decreases items, 2
  {
    hide Terminated, ParseValue, ParseItems, ItemsText, ItemOk, SkipWs, Short, Numeric, Spaces;
    var body := if items == [] then w else ItemsText(items);
    var close := "]" + rest;
    var u := body + close;
    Assoc("[" + body, "]", rest);
    Assoc("[", body, close);
    CloseFirst("]", rest);
    if items == [] {
      SkipSpaces(w, close);
      ParseValueBracket(u, depth);
    } else {
      ItemsCString(items);
      TerminatedConcat(ItemsText(items), close);
      ItemsFirst(items, close);
      ParseValueBracket(u, depth);
      if depth < 1000 {
        ReadItems(items, depth + 1, rest);
      }
    }
  }

  /** What follows the first item, and what follows the first entry. */
  function NextItems(items: seq<Item>, rest: string): string
    requires items != []
  {
    if |items| == 1 then "]" + rest else "," + (ItemsText(items[1..]) + ("]" + rest))
  }

  function NextEntries(members: seq<Entry>, rest: string): string
    requires members != []
  {
    if |members| == 1 then "}" + rest else "," + (EntriesText(members[1..]) + ("}" + rest))
  }

  lemma ItemsJoin(items: seq<Item>, rest: string)
    requires items != []
    ensures ItemsText(items) + ("]" + rest) == ItemText(items[0]) + NextItems(items, rest)
  {
    hide ItemText;
    if |items| == 1 {
      assert ItemsText(items) == ItemText(items[0]) + "";
    } else {
      Assoc(ItemText(items[0]), "," + ItemsText(items[1..]), "]" + rest);
      Assoc(",", ItemsText(items[1..]), "]" + rest);
    }
  }

  lemma EntriesJoin(members: seq<Entry>, rest: string)
    requires members != []
    ensures EntriesText(members) + ("}" + rest) == EntryText(members[0]) + NextEntries(members, rest)
  {
    hide EntryText;
    if |members| == 1 {
      assert EntriesText(members) == EntryText(members[0]) + "";
    } else {
      Assoc(EntryText(members[0]), "," + EntriesText(members[1..]), "}" + rest);
      Assoc(",", EntriesText(members[1..]), "}" + rest);
    }
  }

  lemma ItemJoin(item: Item, next: string)
    ensures ItemText(item) + next == item.before + (Text(item.value) + (item.after + next))
  {
    hide Text;
    Assoc(item.before + Text(item.value), item.after, next);
    Assoc(item.before, Text(item.value), item.after + next);
  }

  /** The first item starts with its value. */
  lemma ItemsFirst(items: seq<Item>, close: string)
    requires items != [] && ItemOk(items[0]) && Terminated(ItemsText(items) + close)
    ensures SkipWs(ItemsText(items) + close)[0] != ']'
  {
    hide Text, Terminated, SkipWs, Accepted;
    var item := items[0];
    var more := item.after + ((if |items| == 1 then "" else "," + ItemsText(items[1..])) + close);
    var s := Text(item.value) + more;
    Assoc(ItemText(item), if |items| == 1 then "" else "," + ItemsText(items[1..]), close);
    ItemJoin(item, (if |items| == 1 then "" else "," + ItemsText(items[1..])) + close);
    TextFirst(item.value);
    SuffixTerminated(item.before + s, |item.before|);
    assert (item.before + s)[|item.before|..] == s;
    SkipSpaces(item.before, s);
    SkipNothing(s);
  }

  /** What the loops make of an item in front of a comma or a closing byte. */
  ghost predicate ItemRead(item: Item, depth: nat, r: Result<Json>, next: string)
    requires ItemOk(item) && Terminated(next) && (r.Ok? ==> Terminated(r.rest))
  {
    if Readable(item.value, depth) then r.Ok? && r.value == ValueOf(item.value) && SkipWs(r.rest) == next
    else r.Ok? ==> Numeric(SkipWs(r.rest)[0])
  }

  lemma NumericSeparates(t: string)
    requires Terminated(t)
    ensures Numeric(t[0]) ==> Separator(t, ']').Neither? && Separator(t, '}').Neither? && t[0] != NUL
  {
  }

  lemma {:induction false} ReadItem(item: Item, depth: nat, next: string)
    requires ItemOk(item) && After(next) && SkipWs(next) == next && depth <= 1000
    ensures Terminated(ItemText(item) + next)
    ensures ItemRead(item, depth, ParseValue(SkipWs(ItemText(item) + next), depth), next)
    decreases item, 0
  {
    hide Text, Terminated, SkipWs, Accepted, Spaces, ParseValue, Numeric, Readable, Separator;
    var more := item.after + next;
    var s := Text(item.value) + more;
    SpacesAfter(item.after, next);
    ReadText(item.value, depth, more);
    TextFirst(item.value);
    ItemJoin(item, next);
    SkipSpaces(item.before, s);
    SkipNothing(s);
    var r := ParseValue(s, depth);
    if !Readable(item.value, depth) && r.Ok? {
      NumericFirst(r.rest);
    }
  }

  lemma NumericFirst(s: string)
    requires Terminated(s) && Numeric(s[0])
    ensures SkipWs(s) == s
  {
    SkipNothing(s);
  }

  lemma AllShortFirst(items: seq<Item>)
    requires items != []
    ensures AllShort(items) <==> Short(items[0].value) && AllShort(items[1..])
  {
    hide Short;
    assert forall i | 1 <= i < |items| :: items[i] == items[1..][i - 1];
  }

  lemma ItemValuesFirst(items: seq<Item>)
    requires items != [] && forall i | 0 <= i < |items| :: ItemOk(items[i])
    ensures ItemOk(items[0]) && Accepted(items[0].value) && ItemValues(items) == [ValueOf(items[0].value)] + ItemValues(items[1..])
    ensures |items| == 1 ==> ItemValues(items[1..]) == [] && ItemValues(items) == [ValueOf(items[0].value)]
  {
    assert ItemOk(items[0]) && Accepted(items[0].value);
    hide ItemOk, ValueOf, Accepted;
  }

  lemma DepthFirst(items: seq<Item>)
    requires items != []
    ensures ItemsDepth(items) == Deeper(Depth(items[0].value), ItemsDepth(items[1..]))
    ensures |items| == 1 ==> ItemsDepth(items[1..]) == 0 && AllShort(items[1..])
  {
  }

  lemma ItemsReadableFirst(items: seq<Item>, depth: nat)
    requires items != []
    ensures ItemsReadable(items, depth) <==> Readable(items[0].value, depth) && (|items| == 1 || ItemsReadable(items[1..], depth))
  {
    hide Short, Depth, AllShort, ItemsDepth;
    AllShortFirst(items);
    DepthFirst(items);
  }

  lemma NoneShort()
    ensures AllShort([])
  {
  }

  lemma {:induction false} ReadItems(items: seq<Item>, depth: nat, rest: string)
    requires items != [] && (forall i | 0 <= i < |items| :: ItemOk(items[i])) && Terminated(rest) && depth <= 1000
    ensures var s := ItemsText(items) + ("]" + rest);
            && Terminated(s)
            && ParseItems(s, depth) == Expect(ItemsReadable(items, depth), ItemValues(items), rest)
    decreases items, 1
  {
    hide Terminated, ParseValue, ParseItems, ItemsText, ItemText, ItemOk, SkipWs, Numeric, Readable, ItemsReadable, ItemValues, ValueOf;
    var next := NextItems(items, rest);
    var u := ItemsText(items[1..]) + ("]" + rest);
    ItemsReadableFirst(items, depth);
    ItemValuesFirst(items);
    CloseFirst("]", rest);
    ItemsCString(items[1..]);
    TerminatedConcat(ItemsText(items[1..]), "]" + rest);
    CloseFirst(",", u);
    ItemsJoin(items, rest);
    ReadItem(items[0], depth, next);
    ItemsStep(ItemText(items[0]) + next, depth);
    var r := ParseValue(SkipWs(ItemText(items[0]) + next), depth);
    if r.Ok? {
      NumericSeparates(SkipWs(r.rest));
    }
    if |items| > 1 {
      ReadItems(items[1..], depth, rest);
    }
  }

  // ---------- Objects ----------

  lemma {:induction false} ReadObject(w: string, members: seq<Entry>, depth: nat, rest: string)
    requires Spaces(w) && (forall i | 0 <= i < |members| :: EntryOk(members[i])) && Terminated(rest) && depth <= 1000
    ensures var s := "{" + (if members == [] then w else EntriesText(members)) + "}" + rest;
            && Terminated(s)
            && ParseValue(s, depth) == Expect(EntriesReadable(members, depth + 1), Object(EntryValues(members)), rest)
    decreases members, 3
  {
    hide Terminated, ParseValue, ParseMembers, EntriesText, EntryOk, SkipWs, Short, Numeric, Spaces;
    var body := if members == [] then w else EntriesText(members);
    var close := "}" + rest;
    var u := body + close;
    Assoc("{" + body, "}", rest);
    Assoc("{", body, close);
    CloseFirst("}", rest);
    if members == [] {
      SkipSpaces(w, close);
      ParseValueObject(u, depth);
    } else {
      ReadEntriesFirst(members, rest);
      ParseValueObject(u, depth);
      if depth < 1000 {
        ReadEntries(members, depth + 1, rest);
      }
    }
  }

  lemma EntryJoin(e: Entry, next: string)
    ensures EntryText(e) + next == e.before + (Quoted(e.key, e.tail) + (e.colon + (":" + (ItemText(e.item) + next))))
  {
    hide ItemText, Quoted;
    Assoc(e.before + Quoted(e.key, e.tail) + e.colon + ":", ItemText(e.item), next);
    Assoc(e.before + Quoted(e.key, e.tail) + e.colon, ":", ItemText(e.item) + next);
    Assoc(e.before + Quoted(e.key, e.tail), e.colon, ":" + (ItemText(e.item) + next));
    Assoc(e.before, Quoted(e.key, e.tail), e.colon + (":" + (ItemText(e.item) + next)));
  }

  /** The name of an entry, up to the byte behind the colon. */
  lemma ReadKey(e: Entry, next: string)
    requires EntryOk(e) && Terminated(next)
    ensures var s := EntryText(e) + next;
            && Terminated(s) && Terminated(ItemText(e.item) + next) && SkipWs(s)[0] == '\"'
            && var k := ParseString(SkipWs(s));
            k.Ok? && k.value == Seen(e.key) && SkipWs(k.rest) == ":" + (ItemText(e.item) + next)
  {
    hide ItemText, Quoted, Terminated, SkipWs, ParseString, CharsOk, TailOk, Seen, ItemOk, Numeric;
    EntryCString(e);
    ItemCString(e.item);
    TerminatedConcat(ItemText(e.item), next);
    var u := ":" + (ItemText(e.item) + next);
    CloseFirst(":", ItemText(e.item) + next);
    SkipSpaces(e.colon, u);
    var t := Quoted(e.key, e.tail) + (e.colon + u);
    ReadString(e.key, e.tail, e.colon + u);
    QuotedFirst(e.key, e.tail, e.colon + u);
    SkipSpaces(e.before, t);
    SkipNothing(t);
    EntryJoin(e, next);
  }

  lemma ReadEntriesFirst(members: seq<Entry>, rest: string)
    requires members != [] && (forall i | 0 <= i < |members| :: EntryOk(members[i])) && Terminated(rest)
    ensures var u := EntriesText(members) + ("}" + rest);
            Terminated(u) && SkipWs(u)[0] == '\"'
  {
    hide EntryOk, EntriesText, EntryText, Terminated, SkipWs, ParseString, Seen, Numeric;
    NextTerminated(members, rest);
    EntriesJoin(members, rest);
    ReadKey(members[0], NextEntries(members, rest));
  }

  lemma NextTerminated(members: seq<Entry>, rest: string)
    requires members != [] && (forall i | 0 <= i < |members| :: EntryOk(members[i])) && Terminated(rest)
    ensures var next := NextEntries(members, rest);
            && After(next) && SkipWs(next) == next && next[0] == (if |members| == 1 then '}' else ',')
            && next[1..] == if |members| == 1 then rest else EntriesText(members[1..]) + ("}" + rest)
  {
    hide EntryOk, EntriesText, Terminated, SkipWs, Numeric;
    CloseFirst("}", rest);
    EntriesCString(members[1..]);
    TerminatedConcat(EntriesText(members[1..]), "}" + rest);
    CloseFirst(",", EntriesText(members[1..]) + ("}" + rest));
  }

  function FirstMember(members: seq<Entry>): Member
    requires members != [] && EntryOk(members[0]) && ItemOk(members[0].item)
  {
    Member(Seen(members[0].key), ValueOf(members[0].item.value))
  }

  lemma EntryValuesFirst(members: seq<Entry>)
    requires members != [] && forall i | 0 <= i < |members| :: EntryOk(members[i])
    ensures EntryOk(members[0]) && ItemOk(members[0].item) && EntryValues(members) == [FirstMember(members)] + EntryValues(members[1..])
    ensures |members| == 1 ==> EntryValues(members[1..]) == [] && EntryValues(members) == [FirstMember(members)]
  {
    hide ItemOk, ValueOf, Seen, Spaces;
    assert EntryOk(members[0]);
  }

  lemma EntryDepthFirst(members: seq<Entry>)
    requires members != []
    ensures EntriesDepth(members) == Deeper(Depth(members[0].item.value), EntriesDepth(members[1..]))
    ensures |members| == 1 ==> EntriesDepth(members[1..]) == 0
  {
  }

  lemma EntriesReadableFirst(members: seq<Entry>, depth: nat)
    requires members != []
    ensures EntriesReadable(members, depth) <==>
            Readable(members[0].item.value, depth) && (|members| == 1 || EntriesReadable(members[1..], depth))
  {
    hide Short, Depth, AllShort, EntriesDepth;
    AllShortFirst(Items(members));
    assert Items(members)[1..] == Items(members[1..]);
    EntryDepthFirst(members);
    if |members| == 1 {
      NoneShort();
      assert Items(members)[1..] == [];
    }
  }

  lemma {:induction false} ReadEntries(members: seq<Entry>, depth: nat, rest: string)
    requires members != [] && (forall i | 0 <= i < |members| :: EntryOk(members[i])) && Terminated(rest) && depth <= 1000
    ensures var s := EntriesText(members) + ("}" + rest);
            && Terminated(s)
            && ParseMembers(s, depth) == Expect(EntriesReadable(members, depth), EntryValues(members), rest)
    decreases members, 1
  {
    hide Terminated, ParseValue, ParseMembers, ParseString, EntriesText, EntryText, ItemText, EntryOk, ItemOk, SkipWs, Numeric;
    hide Readable, EntriesReadable, EntryValues, ValueOf, Seen, NextEntries;
    var next := NextEntries(members, rest);
    var e := members[0];
    EntriesReadableFirst(members, depth);
    EntryValuesFirst(members);
    NextTerminated(members, rest);
    EntriesJoin(members, rest);
    ReadKey(e, next);
    ReadItem(e.item, depth, next);
    MembersStep(EntryText(e) + next, depth);
    assert (":" + (ItemText(e.item) + next))[1..] == ItemText(e.item) + next;
    var r := ParseValue(SkipWs(ItemText(e.item) + next), depth);
    if r.Ok? {
      NumericSeparates(SkipWs(r.rest));
    }
    if |members| > 1 {
      ReadEntries(members[1..], depth, rest);
    }
  }

  /** A text of the grammar with whitespace around it, as the whole input. */
  lemma ReadDocument(item: Item)
    requires ItemOk(item)
    ensures CString(ItemText(item))
    ensures Parse(ItemText(item), true) == Expect(Readable(item.value, 0), ValueOf(item.value), [NUL])
    ensures Reads(Parse(ItemText(item), false), Readable(item.value, 0), ValueOf(item.value), item.after + [NUL])
  {
    hide Text, ItemText, SkipWs, Accepted, Spaces, ParseValue, Readable;
    ItemCString(item);
    ReadItem(item, 0, [NUL]);
    ReadItemRest(item);
  }

  lemma ReadItemRest(item: Item)
    requires ItemOk(item)
    ensures Terminated(ItemText(item) + [NUL])
    ensures Reads(ParseValue(SkipWs(ItemText(item) + [NUL]), 0), Readable(item.value, 0), ValueOf(item.value), item.after + [NUL])
  {
    hide Text, SkipWs, Accepted, Spaces, ParseValue, Readable, Numeric, Terminated;
    EndAfter();
    var s := Text(item.value) + (item.after + [NUL]);
    SpacesAfter(item.after, [NUL]);
    ReadText(item.value, 0, item.after + [NUL]);
    TextFirst(item.value);
    ItemJoin(item, [NUL]);
    SkipSpaces(item.before, s);
    SkipNothing(s);
  }

  lemma EndAfter()
    ensures After([NUL]) && SkipWs([NUL]) == [NUL]
  {
  }

  /** However a text is derived, it is readable or not, and it has one value. */
  lemma OneValue(a: Item, b: Item)
    requires ItemOk(a) && ItemOk(b) && ItemText(a) == ItemText(b)
    ensures Readable(a.value, 0) <==> Readable(b.value, 0)
    ensures Readable(a.value, 0) ==> ValueOf(a.value) == ValueOf(b.value)
  {
    hide ItemText, ItemOk, Parse, Readable, ValueOf;
    ReadDocument(a);
    ReadDocument(b);
  }

  // ---------- What is kept of a string ----------

  lemma Utf8NoNul(cp: nat)
    requires Scalar(cp)
    ensures NUL in EncodeUtf8(cp) <==> cp == 0
  {
    EncodeIsUtf8(cp);
    assert NUL as int == 0;
  }

  lemma CharNoNul(c: Char)
    requires CharOk(c)
    ensures NUL in CharBytes(c) <==> c.Unicode? && c.cp == 0
  {
    hide EscapeOf, EncodeUtf8;
    if c.Unicode? {
      Utf8NoNul(c.cp);
    }
  }

  lemma {:induction false} BytesNoNul(cs: seq<Char>)
    requires CharsOk(cs)
    ensures NUL in Bytes(cs) <==> exists i | 0 <= i < |cs| :: cs[i].Unicode? && cs[i].cp == 0
  {
    hide CharOk, CharBytes;
    if cs != [] {
      CharNoNul(cs[0]);
      BytesNoNul(cs[1..]);
      assert forall i | 1 <= i < |cs| :: cs[i] == cs[1..][i - 1];
    }
  }

  lemma {:induction false} CStrShorter(s: string)
    ensures CStr(s) == s <==> CString(s)
  {
    if s != "" {
      CStrShorter(s[1..]);
    }
  }

  /** The caller sees the whole string exactly if none of its characters is an escaped U+0000. */
  lemma StringKept(cs: seq<Char>)
    requires CharsOk(cs)
    ensures Seen(cs) == Bytes(cs) <==> forall i | 0 <= i < |cs| :: cs[i].Unicode? ==> cs[i].cp != 0
  {
    hide CStr, Bytes, CharOk;
    BytesNoNul(cs);
    CStrShorter(Bytes(cs));
  }

  // ---------- Instances ----------

  /** One code point from each range: the dollar, the cent, the euro and the Gothic letter hwair. */
  lemma Utf8Examples()
    ensures EncodeUtf8(0x24) == [0x24 as char] && EncodeUtf8(0xA2) == [0xC2 as char, 0xA2 as char]
    ensures EncodeUtf8(0x20AC) == [0xE2 as char, 0x82 as char, 0xAC as char]
    ensures EncodeUtf8(0x10348) == [0xF0 as char, 0x90 as char, 0x8D as char, 0x88 as char]
  {
  }

  /** An object with one member whose value is a string. */
  lemma OneString(key: seq<Char>, chars: seq<Char>)
    requires CharsOk(key) && CharsOk(chars)
    ensures var text := "{\"" + Chars(key) + "\":\"" + Chars(chars) + "\"}";
            CString(text) && Parse(text, true) == Ok(Object([Member(Seen(key), String(Seen(chars)))]), [NUL])
  {
    hide Parse, Chars, Seen, CharsOk;
    var value := StringText(chars, "");
    var e := Entry("", key, "", "", Item("", value, ""));
    OneEntry(e, key, value);
    var item := Item("", ObjectText("", [e]), "");
    ReadDocument(item);
    assert ItemText(item) == "" + ("{" + EntriesText([e]) + "}") + "" == "{\"" + Chars(key) + "\":\"" + Chars(chars) + "\"}";
  }

  lemma OneEntry(e: Entry, key: seq<Char>, value: Value)
    requires e == Entry("", key, "", "", Item("", value, "")) && CharsOk(key) && value.StringText? && value.tail == "" && CharsOk(value.chars)
    ensures EntryOk(e) && Accepted(value) && ItemOk(Item("", ObjectText("", [e]), ""))
    ensures Readable(ObjectText("", [e]), 0) && ValueOf(ObjectText("", [e])) == Object([Member(Seen(key), String(Seen(value.chars)))])
    ensures EntriesText([e]) == "\"" + Chars(key) + "\":\"" + Chars(value.chars) + "\""
  {
    OneIsOk(e, key, value);
    hide Chars, Seen, EntryOk, Accepted, ItemOk, EntryValues, EntriesText;
    EntryValuesFirst([e]);
    OneIsShort(e);
    OneText(e, key, value);
    ObjectValue([e]);
  }

  lemma OneIsOk(e: Entry, key: seq<Char>, value: Value)
    requires e == Entry("", key, "", "", Item("", value, "")) && CharsOk(key) && value.StringText? && value.tail == "" && CharsOk(value.chars)
    ensures EntryOk(e) && Accepted(value) && ItemOk(e.item) && ItemOk(Item("", ObjectText("", [e]), "")) && ValueOf(value) == String(Seen(value.chars))
  {
    hide CharsOk, Seen;
    assert Accepted(value) && ItemOk(e.item) && EntryOk(e);
    assert Accepted(ObjectText("", [e]));
  }

  lemma ObjectValue(members: seq<Entry>)
    requires Accepted(ObjectText("", members)) && forall i | 0 <= i < |members| :: EntryOk(members[i])
    ensures ValueOf(ObjectText("", members)) == Object(EntryValues(members))
  {
    hide EntryOk, EntryValues;
  }

  lemma OneIsShort(e: Entry)
    requires e.item.value.StringText?
    ensures Readable(ObjectText("", [e]), 0)
  {
    assert Short(e.item.value) && Depth(e.item.value) == 0;
    assert [e][1..] == [];
    assert EntriesDepth([]) == 0;
  }

  lemma OneText(e: Entry, key: seq<Char>, value: Value)
    requires e == Entry("", key, "", "", Item("", value, "")) && value.StringText? && value.tail == ""
    ensures EntriesText([e]) == "\"" + Chars(key) + "\":\"" + Chars(value.chars) + "\""
  {
    hide Chars;
    assert Chars(value.chars) + "" == Chars(value.chars) && Chars(key) + "" == Chars(key);
    assert ItemText(e.item) == "\"" + Chars(value.chars) + "\"";
    assert EntryText(e) == "\"" + Chars(key) + "\"" + "" + ":" + ItemText(e.item);
  }

  /** An object with an escaped slash. */
  lemma SlashDocument()
    ensures CString("{\"path\":\"a\\/b\"}")
    ensures Parse("{\"path\":\"a\\/b\"}", true) == Ok(Object([Member("path", String("a/b"))]), [NUL])
  {
    hide Parse, Chars, Seen, CharsOk, CString;
    var key, chars := [Plain('p'), Plain('a'), Plain('t'), Plain('h')], [Plain('a'), Simple('/'), Plain('b')];
    PlainChars(key, "path");
    SlashChars(chars);
    OneString(key, chars);
    assert "{\"" + "path" + "\":\"" + "a\\/b" + "\"}" == "{\"path\":\"a\\/b\"}";
  }

  lemma PlainChars(cs: seq<Char>, s: string)
    requires cs == [Plain('p'), Plain('a'), Plain('t'), Plain('h')] && s == "path"
    ensures CharsOk(cs) && Chars(cs) == s && Seen(cs) == s
  {
    assert CharsOk(cs);
    hide CharOk, Chars, Seen;
    PlainFirst('p', cs);
    PlainFirst('a', cs[1..]);
    PlainFirst('t', cs[2..]);
    PlainFirst('h', cs[3..]);
    NoChars(cs[4..]);
  }

  lemma NoChars(cs: seq<Char>)
    requires cs == []
    ensures Chars(cs) == "" && Seen(cs) == ""
  {
  }

  lemma PlainFirst(b: char, cs: seq<Char>)
    requires cs != [] && cs[0] == Plain(b) && b as int != 0 && b != '\"' && b != '\\' && CharsOk(cs)
    ensures Chars(cs) == [b] + Chars(cs[1..]) && Seen(cs) == [b] + Seen(cs[1..])
  {
    assert ([b] + Bytes(cs[1..]))[1..] == Bytes(cs[1..]);
  }

  lemma SlashChars(cs: seq<Char>)
    requires cs == [Plain('a'), Simple('/'), Plain('b')]
    ensures CharsOk(cs) && Chars(cs) == "a\\/b" && Seen(cs) == "a/b"
  {
    PlainFirst('a', cs);
    var t := cs[1..];
    assert t == [Simple('/'), Plain('b')] && t[1..] == [Plain('b')];
    PlainFirst('b', t[1..]);
    assert t[1..][1..] == [];
    assert Bytes(t) == "/" + Bytes(t[1..]);
    assert ("/" + Bytes(t[1..]))[1..] == Bytes(t[1..]);
  }
}
