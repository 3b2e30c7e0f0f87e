/** The parser takes nothing but the texts of JsonGrammar: whatever it reads has a derivation. */
module JsonLanguage {
  import opened Options
  import opened JsonSpec
  import opened JsonSteps
  import opened JsonString
  import opened JsonRoundTrip
  import opened JsonGrammar
  import opened JsonReading

  // ---------- Whitespace ----------

  /** What is skipped is whitespace. */
  lemma {:induction false} Skipped(s: string) returns (w: string)
    requires Terminated(s)
    ensures Spaces(w) && s == w + SkipWs(s)
  {
    hide SkipWs;
    SkipStep(s);
    if s[0] <= ' ' && |s| > 1 {
      var v := Skipped(s[1..]);
      w := [s[0]] + v;
    } else {
      w := "";
    }
  }

  // ---------- Strings ----------

  lemma {:induction false} ScanHides(t: string)
    requires ScanString(t) == Some(|t| - 1)
    ensures Hides(t[..|t| - 1])
    decreases |t|
  {
    ScanUnfold(t);
    hide ScanString;
    var n := |t| - 1;
    if n > 0 {
      if t[0] == '\\' {
        ScanHides(t[2..]);
        FrontAndBack(t, 2, n);
      } else {
        ScanHides(t[1..]);
        FrontAndBack(t, 1, n);
      }
    }
  }

  lemma {:induction false} SeenSame(a: string, x: string, y: string)
    requires CStr(x) == CStr(y)
    ensures CStr(a + x) == CStr(a + y)
  {
    if a == "" {
      assert a + x == x && a + y == y;
    } else {
      SeenSame(a[1..], x, y);
      assert (a + x)[1..] == a[1..] + x && (a + y)[1..] == a[1..] + y;
    }
  }

  /** One more character in front of those already found. */
  lemma CharInFront(c: Char, cs: seq<Char>, tail: string, t: string)
    requires CharOk(c) && CharsOk(cs)
    requires t == Chars(cs) + tail + "\""
    ensures CharsOk([c] + cs) && Bytes([c] + cs) == CharBytes(c) + Bytes(cs)
    ensures CharText(c) + t == Chars([c] + cs) + tail + "\""
  {
    hide CharOk, CharText, CharBytes;
    assert ([c] + cs)[1..] == cs;
    Assoc(CharText(c), Chars(cs), tail);
    Assoc(CharText(c), Chars(cs) + tail, "\"");
  }

  /** What an escape that is taken starts with. */
  lemma LiteralParts(t: string)
    requires |t| > 6 && Utf16Literal(t).Some?
    ensures var h, n, u := ParseHex4(t[2..6]), Utf16Literal(t).value.1, Utf16Literal(t).value.0;
            if 0xD800 <= h <= 0xDBFF then
              && n == 12 && |t| > 12 && t[6] == '\\' && t[7] == 'u'
              && var l := ParseHex4(t[8..12]);
              0xDC00 <= l <= 0xDFFF && u == EncodeUtf8(0x10000 + h % 0x400 * 0x400 + l % 0x400)
            else n == 6 && !(0xDC00 <= h <= 0xDFFF) && u == EncodeUtf8(h)
  {
    hide ParseHex4, EncodeUtf8;
  }

  lemma PairOf(h: nat, l: nat)
    requires 0xD800 <= h <= 0xDBFF && 0xDC00 <= l <= 0xDFFF
    ensures var cp := 0x10000 + h % 0x400 * 0x400 + l % 0x400;
            0x10000 <= cp <= 0x10FFFF && h == 0xD800 + (cp - 0x10000) / 0x400 && l == 0xDC00 + (cp - 0x10000) % 0x400
  {
    assert h % 0x400 == h - 0xD800 && l % 0x400 == l - 0xDC00;
  }

  lemma HexAt(t: string, i: nat)
    requires i + 6 <= |t|
    ensures t[i..i + 6][2..] == t[i + 2..i + 6]
  {
  }

  /** An escape on whose digits the code agrees, as a character, and how much of the text it is. */
  lemma OnlyUnicode(t: string) returns (c: Char)
    requires |t| > 6 && t[0] == '\\' && t[1] == 'u' && FourDigits(t[..6]) && Utf16Literal(t).Some?
    ensures c.Unicode? && CharOk(c) && |c.text| == Utf16Literal(t).value.1 <= |t| && c.text == t[..|c.text|]
    ensures CharBytes(c) == Utf16Literal(t).value.0
    ensures ScanString(t) == Shift(|c.text|, ScanString(t[|c.text|..]))
  {
    hide ParseHex4, EncodeUtf8, Utf16Literal, FourDigits, ScanString, HexOf;
    LiteralParts(t);
    var e := t[..6];
    HexAt(t, 0);
    HexAgrees(e);
    var h := ParseHex4(t[2..6]);
    DigitsWrite(e);
    if 0xD800 <= h <= 0xDBFF {
      var f := t[6..12];
      HexAt(t, 6);
      HexAgrees(f);
      DigitsWrite(f);
      var l := ParseHex4(t[8..12]);
      PairOf(h, l);
      var cp := 0x10000 + h % 0x400 * 0x400 + l % 0x400;
      var g := t[..12];
      assert g[..6] == e && g[6..] == f;
      c := Unicode(g, cp);
      PairScan(g, t[12..]);
      assert t == g + t[12..];
    } else {
      c := Unicode(e, h);
      EscapeScan(e, t[6..]);
      assert t == e + t[6..];
    }
  }

  lemma DigitsWrite(e: string)
    requires |e| == 6 && e[0] == '\\' && e[1] == 'u'
    ensures FourDigits(e) ==> EscapeOf(e, ParseHex4(e[2..]))
    ensures !FourDigits(e) ==> ParseHex4(e[2..]) == 0
  {
    HexAgrees(e);
    hide ParseHex4, HexOf;
  }

  /** The tail from a malformed escape on. */
  lemma OnlyTail(t: string)
    requires |t| > 6 && t[0] == '\\' && t[1] == 'u' && !FourDigits(t[..6]) && t[|t| - 1] == '\"'
    requires CString(t) && ScanString(t) == Some(|t| - 1) && Decode(t).Some?
    ensures TailOk(t[..|t| - 1]) && CStr(Decode(t).value) == "" && t == t[..|t| - 1] + "\""
  {
    hide Decode, ScanString, FourDigits, Hides, HexOf, ParseHex4, EncodeUtf8;
    var tail, e, rest := t[..|t| - 1], t[..6], t[6..];
    ScanHides(t);
    HexAgrees(e);
    NulBytes();
    HexEscapeDecodes(e, rest);
    assert t == e + rest && rest == tail[6..] + "\"";
    SameFourDigits(tail);
    assert tail[..6] == e;
    StartsWithNul(Decode(rest));
  }

  lemma StartsWithNul(r: Option<string>)
    requires r.Some?
    ensures CStr(Prepend([NUL], r).value) == ""
  {
  }

  /** A body that both passes get through, with its quote, as characters and a tail. */
  lemma {:induction false} OnlyChars(t: string) returns (cs: seq<Char>, tail: string)
    requires t != "" && t[|t| - 1] == '\"' && CString(t) && ScanString(t) == Some(|t| - 1) && Decode(t).Some?
    ensures CharsOk(cs) && TailOk(tail) && t == Chars(cs) + tail + "\"" && Seen(cs) == CStr(Decode(t).value)
    decreases |t|
  {
    hide Decode, ScanString, FourDigits, CStr, TailOk, Utf16Literal, Unescape, Letter, EncodeUtf8;
    if |t| == 1 {
      cs, tail := [], "";
      DecodeNothing(t);
      NoTail();
      assert t == "\"";
    } else {
      DecodeUnfold(t);
      ScanUnfold(t);
      if t[0] == '\\' && t[1] == 'u' && !FourDigits(t[..6]) {
        cs, tail := [], t[..|t| - 1];
        OnlyTail(t);
        NoSeen();
        assert "" + tail == tail;
      } else {
        var c := OnlyChar(t);
        var n := |CharText(c)|;
        cs, tail := OnlyChars(t[n..]);
        CharInFront(c, cs, tail, t[n..]);
        SeenSame(CharBytes(c), Bytes(cs), Decode(t[n..]).value);
        cs := [c] + cs;
        assert t == t[..n] + t[n..];
      }
    }
  }

  lemma NoTail()
    ensures TailOk("") && Seen([]) == "" && CStr("") == ""
  {
  }

  lemma NoSeen()
    ensures Seen([]) == ""
  {
  }

  /** The first character. */
  lemma OnlyChar(t: string) returns (c: Char)
    requires |t| > 1 && t[|t| - 1] == '\"' && CString(t) && ScanString(t) == Some(|t| - 1) && Decode(t).Some?
    requires t[0] == '\\' && t[1] == 'u' && |t| >= 6 ==> FourDigits(t[..6])
    ensures CharOk(c)
    ensures var n := |CharText(c)|;
            && 0 < n < |t| && CharText(c) == t[..n] && ScanString(t[n..]) == Some(|t| - n - 1)
            && Decode(t[n..]).Some? && Decode(t).value == CharBytes(c) + Decode(t[n..]).value
  {
    hide Decode, ScanString, FourDigits, Utf16Literal, EncodeUtf8, UnicodeOf;
    DecodeUnfold(t);
    ScanUnfold(t);
    if t[0] != '\\' {
      c := Plain(t[0]);
      assert t[0] in t && t[..1] == [t[0]];
    } else if t[1] == 'u' {
      LongEnough(t);
      c := OnlyUnicode(t);
    } else {
      LettersAgree(t[1]);
      c := Simple(t[1]);
      assert t[..2] == ['\\', t[1]];
    }
  }

  lemma LongEnough(t: string)
    requires Utf16Literal(t).Some?
    ensures |t| > 6
  {
  }

  lemma OnlyString(s: string) returns (cs: seq<Char>, tail: string)
    requires Terminated(s) && ParseString(s).Ok?
    ensures CharsOk(cs) && TailOk(tail) && s == Quoted(cs, tail) + ParseString(s).rest && ParseString(s).value == Seen(cs)
  {
    hide Decode, ScanString, CStr, TailOk, Chars, Bytes, CharOk;
    var n := ScanString(s[1..]).value;
    var t := s[1..n + 2];
    BodyScan(s[1..], n);
    assert t == s[1..][..n + 1] && t[n] == s[n + 1];
    BodyCString(s, n);
    cs, tail := OnlyChars(t);
    assert s == "\"" + t + s[n + 2..];
    assert "\"" + (Chars(cs) + tail + "\"") == "\"" + (Chars(cs) + tail) + "\"";
  }

  lemma BodyCString(s: string, n: nat)
    requires Terminated(s) && n + 2 <= |s| && s[n + 1] != NUL
    ensures CString(s[1..n + 2])
  {
  }

  /** Behind the closing quote the first pass does not look. */
  lemma {:induction false} BodyScan(t: string, n: nat)
    requires ScanString(t) == Some(n)
    ensures n < |t| && ScanString(t[..n + 1]) == Some(n)
    decreases |t|
  {
    ScanUnfold(t);
    hide ScanString;
    var u := t[..n + 1];
    ScanFirst(u);
    if t[0] == '\\' {
      BodyScan(t[2..], n - 2);
      FrontAndBack(t, 2, n + 1);
    } else if t[0] != '\"' {
      BodyScan(t[1..], n - 1);
      FrontAndBack(t, 1, n + 1);
    }
  }

  lemma FrontAndBack(t: string, k: nat, m: nat)
    requires k <= m <= |t|
    ensures t[..m][k..] == t[k..][..m - k]
  {
  }

  lemma ScanFirst(t: string)
    requires t != ""
    ensures t[0] == '\"' ==> ScanString(t) == Some(0)
    ensures t[0] == '\\' && |t| >= 2 ==> ScanString(t) == Shift(2, ScanString(t[2..]))
    ensures t[0] != '\"' && t[0] != '\\' ==> ScanString(t) == Shift(1, ScanString(t[1..]))
  {
  }

  // ---------- Numbers ----------

  lemma {:induction false} RunOfDigits(s: string)
    ensures DecimalDigits(s[..DigitRun(s)])
  {
    if s != "" && Digit(s[0]) {
      DigitsAgree(s[0]);
      RunOfDigits(s[1..]);
      var d, e := s[..DigitRun(s)], s[1..][..DigitRun(s[1..])];
      assert d == [s[0]] + e;
      hide DecimalOf;
    }
  }

  lemma RunStarts(s: string)
    requires s != "" && Digit(s[0])
    ensures DigitRun(s) > 0
  {
  }

  lemma OnlyExponent(t: string) returns (x: Option<Exponent>)
    ensures x.Some? ==> ExponentOk(x.value)
    ensures var (e, n) := ExponentPart(t); ExponentText(x) == t[..n] && ExponentValue(x) == e
  {
    hide NatValue, Decimal, DigitRun, DecimalDigits;
    var (e, n) := ExponentPart(t);
    if n == 0 {
      x := None;
    } else {
      var sign := SignLength(t[1..]);
      var k := DigitRun(t[1 + sign..]);
      var d := t[1 + sign..1 + sign + k];
      RunOfDigits(t[1 + sign..]);
      assert d == t[1 + sign..][..k];
      DecimalIsNatValue(d);
      var sg := t[1..1 + sign];
      SignParts(t, sign);
      x := Some(Exponent(t[0], sg, d));
      assert t[..n] == [t[0]] + sg + d;
    }
  }

  lemma SignParts(t: string, sign: nat)
    requires t != "" && sign == SignLength(t[1..])
    ensures var sg := t[1..1 + sign];
            (sg == "" || sg == "+" || sg == "-") && (sg == "-" <==> t[1..] != "" && t[1..][0] == '-')
  {
    if sign == 1 {
      assert t[1..2] == [t[1]];
    }
  }

  lemma RunAt(s: string, i: nat)
    requires i <= |s|
    ensures var n := DigitRun(s[i..]); i + n <= |s| && DecimalDigits(s[i..i + n])
  {
    hide DigitRun, DecimalDigits;
    var n := DigitRun(s[i..]);
    RunOfDigits(s[i..]);
    TailSlice(s, i, n);
  }

  /** The digits that strtod finds: w in front of the point, if there is one, and f behind it. */
  lemma StrtodShape(s: string) returns (sign: nat, w: string, point: nat, f: string)
    requires Strtod(s).Some?
    ensures sign == SignLength(s) && point <= 1 && sign + |w| + point + |f| <= |s| && s[sign..sign + |w|] == w
    ensures w + f != "" && DecimalDigits(w) && DecimalDigits(f) && |w| == DigitRun(s[sign..])
    ensures if point == 1 then s[sign + |w|] == '.' && s[sign + |w| + 1..sign + |w| + 1 + |f|] == f else f == ""
    ensures var b := sign + |w| + point + |f|;
            var (e, n) := ExponentPart(s[b..]);
            Strtod(s) == Some((Signed(s, NatValue(w + f)), e - |f|, b + n))
  {
    hide NatValue, DigitRun, DecimalDigits, ExponentPart, SignLength, Signed;
    sign := SignLength(s);
    var whole := DigitRun(s[sign..]);
    var a := sign + whole;
    point := if a < |s| && s[a] == '.' then 1 else 0;
    var frac := if point == 1 then DigitRun(s[a + 1..]) else 0;
    w, f := s[sign..a], if point == 1 then s[a + 1..a + 1 + frac] else "";
    RunAt(s, sign);
    if point == 1 {
      RunAt(s, a + 1);
    } else {
      NothingIsDigits();
    }
  }

  /** What strtod reads is a numeral. */
  lemma OnlyNumeral(s: string) returns (v: Value)
    requires s != "" && (s[0] == '-' || Digit(s[0])) && Strtod(s).Some?
    ensures v.NumberText? && NumberOk(v)
    ensures var (m, e, n) := Strtod(s).value; Numeral(v) == s[..n] && NumberValue(v) == Json.Number(m, e)
  {
    hide NatValue, Decimal, DigitRun, DecimalDigits, ExponentPart, ExponentOk, ExponentText, ExponentValue, Digit, Strtod, SignLength;
    var sign, w, point, f := StrtodShape(s);
    var b := sign + |w| + point + |f|;
    var x := OnlyExponent(s[b..]);
    var (e, n) := ExponentPart(s[b..]);
    FirstSign(s);
    WholeThere(s, sign, w);
    v := NumberText(sign == 1, w, if point == 1 then Some(f) else None, x);
    DecimalOfBoth(w, f);
    NumeralIs(s, sign, w, point, f, s[b..][..n]);
  }

  lemma WholeThere(s: string, sign: nat, w: string)
    requires s != "" && (s[0] == '-' || Digit(s[0])) && sign == SignLength(s) && |w| == DigitRun(s[sign..])
    ensures w == "" ==> sign == 1
  {
    if sign == 0 {
      assert s[0..] == s;
      RunStarts(s);
    }
  }

  lemma NothingIsDigits()
    ensures DecimalDigits("")
  {
  }

  lemma DecimalOfBoth(w: string, f: string)
    requires DecimalDigits(w) && DecimalDigits(f)
    ensures DecimalDigits(w + f) && NatValue(w + f) == Decimal(w + f)
  {
    assert DecimalDigits(w + f);
    hide DecimalDigits, NatValue, Decimal;
    DecimalIsNatValue(w + f);
  }

  lemma FirstSign(s: string)
    requires s != "" && (s[0] == '-' || Digit(s[0]))
    ensures SignLength(s) == (if s[0] == '-' then 1 else 0)
    ensures s[..SignLength(s)] == if SignLength(s) == 1 then "-" else ""
  {
    if s[0] == '-' {
      assert s[..1] == [s[0]];
    }
  }

  lemma NumeralIs(s: string, sign: nat, w: string, point: nat, f: string, x: string)
    requires sign <= 1 && point <= 1 && sign + |w| + point + |f| + |x| <= |s|
    requires s[..sign] == (if sign == 1 then "-" else "") && s[sign..sign + |w|] == w
    requires if point == 1 then s[sign + |w|] == '.' && s[sign + |w| + 1..sign + |w| + 1 + |f|] == f else f == ""
    requires s[sign + |w| + point + |f|..][..|x|] == x
    ensures (if sign == 1 then "-" else "") + w + (if point == 1 then "." + f else "") + x == s[..sign + |w| + point + |f| + |x|]
  {
    var a, b := sign + |w|, sign + |w| + point + |f|;
    PointIs(s, a, point, f);
    TailSlice(s, b, |x|);
    FourParts(s, sign, a, b, b + |x|);
  }

  lemma FourParts(s: string, i: nat, j: nat, k: nat, n: nat)
    requires i <= j <= k <= n <= |s|
    ensures s[..n] == s[..i] + s[i..j] + s[j..k] + s[k..n]
  {
    Glued(s, i, j);
    Glued(s, j, k);
    Glued(s, k, n);
  }

  lemma PointIs(s: string, a: nat, point: nat, f: string)
    requires point <= 1 && a + point + |f| <= |s|
    requires if point == 1 then s[a] == '.' && s[a + 1..a + 1 + |f|] == f else f == ""
    ensures s[a..a + point + |f|] == if point == 1 then "." + f else ""
  {
    if point == 1 {
      assert s[a..a + 1 + |f|] == [s[a]] + s[a + 1..a + 1 + |f|];
    }
  }

  lemma Glued(s: string, a: nat, b: nat)
    requires a <= b <= |s|
    ensures s[..b] == s[..a] + s[a..b]
  {
  }

  lemma TailSlice(s: string, b: nat, n: nat)
    requires b + n <= |s|
    ensures s[b..][..n] == s[b..b + n]
  {
  }

  lemma OnlyNumber(s: string) returns (v: Value)
    requires Terminated(s) && (s[0] == '-' || Digit(s[0])) && ParseNumber(s).Ok?
    ensures v.NumberText? && NumberOk(v) && |Numeral(v)| <= 63
    ensures s == Numeral(v) + ParseNumber(s).rest && ParseNumber(s).value == NumberValue(v)
  {
    hide Strtod, Numeral, NumberOk, NumberValue, NumericRun;
    var run := NumericRun(s, 63);
    RunNotEmpty(s);
    assert s[..run][0] == s[0];
    v := OnlyNumeral(s[..run]);
    var n := Strtod(s[..run]).value.2;
    assert s[..run][..n] == s[..n];
  }

  lemma RunNotEmpty(s: string)
    requires s != "" && (s[0] == '-' || Digit(s[0]))
    ensures NumericRun(s, 63) > 0
  {
  }

  // ---------- Values ----------

  lemma WordIs(s: string, depth: nat) returns (v: Value)
    requires Terminated(s) && !NoWord(s)
    ensures Accepted(v) && Short(v) && Depth(v) == 0
    ensures var r := ParseValue(s, depth);
            r.Ok? && r.value == ValueOf(v) && s == Text(v) + r.rest
  {
    hide ParseValue;
    ValueIsWord(s, depth);
    if "null" <= s {
      v := NullText;
      PrefixCut("null", s);
    } else if "false" <= s {
      v := FalseText;
      PrefixCut("false", s);
    } else {
      v := TrueText;
      PrefixCut("true", s);
    }
  }

  lemma PrefixCut(p: string, s: string)
    requires p <= s
    ensures s == p + s[|p|..]
  {
  }

  /** What is read as a value has a derivation, short and flat enough, with that value. */
  lemma {:induction false} OnlyValue(s: string, depth: nat) returns (v: Value)
    requires Terminated(s) && depth <= 1000 && ParseValue(s, depth).Ok?
    ensures Accepted(v) && Readable(v, depth)
    ensures ParseValue(s, depth).value == ValueOf(v) && s == Text(v) + ParseValue(s, depth).rest
    decreases |s|, 0
  {
    hide ParseValue, ParseString, ParseNumber, Numeral, NumberOk, NumberValue, CharsOk, TailOk, Seen, Quoted, Digit, Terminated;
    if !NoWord(s) {
      v := WordIs(s, depth);
    } else {
      ValueIsOther(s, depth);
      if s[0] == '\"' {
        var cs, tail := OnlyString(s);
        v := StringText(cs, tail);
      } else if s[0] == '-' || Digit(s[0]) {
        v := OnlyNumber(s);
      } else if s[0] == '[' {
        v := OnlyArray(s, depth);
      } else {
        v := OnlyObject(s, depth);
      }
    }
  }

  lemma {:induction false} OnlyArray(s: string, depth: nat) returns (v: Value)
    requires Terminated(s) && NoWord(s) && s[0] == '[' && depth <= 1000 && ParseValue(s, depth).Ok?
    ensures Accepted(v) && Readable(v, depth)
    ensures ParseValue(s, depth).value == ValueOf(v) && s == Text(v) + ParseValue(s, depth).rest
    decreases |s|, 0, 0
  {
    hide ParseValue, ParseItems, SkipWs, ItemsText, ItemOk, Short, ItemsDepth, ItemValues;
    ValueIsArray(s, depth);
    var t, rest := s[1..], ParseValue(s, depth).rest;
    assert s == "[" + t;
    if SkipWs(t)[0] == ']' {
      var w := Skipped(t);
      v := ArrayText(w, []);
      EmptyArray(w);
      assert SkipWs(t) == "]" + rest;
      Around("[", w, "]", rest);
    } else {
      SkipTwice(t);
      ParseItemsSkip(t, SkipWs(t), depth + 1);
      var items := OnlyItems(t, depth + 1);
      v := ArrayText("", items);
      ArrayIs(items, depth);
      Around("[", ItemsText(items), "]", rest);
    }
  }

  lemma Around(open: string, body: string, close: string, rest: string)
    ensures open + body + close + rest == open + (body + (close + rest))
  {
    Assoc(open + body, close, rest);
    Assoc(open, body, close + rest);
  }

  lemma EmptyArray(w: string)
    requires Spaces(w)
    ensures Accepted(ArrayText(w, [])) && Short(ArrayText(w, [])) && Depth(ArrayText(w, [])) == 1
    ensures ValueOf(ArrayText(w, [])) == Array([]) && Text(ArrayText(w, [])) == "[" + w + "]"
  {
  }

  lemma ArrayIs(items: seq<Item>, depth: nat)
    requires items != [] && (forall i | 0 <= i < |items| :: ItemOk(items[i])) && ItemsReadable(items, depth + 1)
    ensures var v := ArrayText("", items);
            Accepted(v) && Readable(v, depth) && ValueOf(v) == Array(ItemValues(items)) && Text(v) == "[" + ItemsText(items) + "]"
  {
    hide ItemOk, ItemsReadable, Accepted, Readable, ValueOf, Text;
    ArrayAccepted(items);
    ArraySized(items, depth);
  }

  lemma ArrayAccepted(items: seq<Item>)
    requires items != [] && forall i | 0 <= i < |items| :: ItemOk(items[i])
    ensures var v := ArrayText("", items);
            Accepted(v) && ValueOf(v) == Array(ItemValues(items)) && Text(v) == "[" + ItemsText(items) + "]"
  {
    hide ItemOk, ItemsText, ItemValues;
    assert Accepted(ArrayText("", items));
  }

  lemma ArraySized(items: seq<Item>, depth: nat)
    requires ItemsReadable(items, depth + 1)
    ensures Readable(ArrayText("", items), depth)
  {
    hide ItemsDepth;
  }

  lemma {:induction false} OnlyObject(s: string, depth: nat) returns (v: Value)
    requires Terminated(s) && NoWord(s) && s[0] !in {'\"', '-', '['} && !Digit(s[0]) && depth <= 1000 && ParseValue(s, depth).Ok?
    ensures Accepted(v) && Readable(v, depth)
    ensures ParseValue(s, depth).value == ValueOf(v) && s == Text(v) + ParseValue(s, depth).rest
    decreases |s|, 0, 0
  {
    hide ParseValue, ParseMembers, SkipWs, EntriesText, EntryOk, Short, EntriesDepth, EntryValues;
    ValueIsOther(s, depth);
    ValueIsObject(s, depth);
    var t, rest := s[1..], ParseValue(s, depth).rest;
    assert s == "{" + t;
    if SkipWs(t)[0] == '}' {
      var w := Skipped(t);
      v := ObjectText(w, []);
      EmptyObject(w);
      assert SkipWs(t) == "}" + rest;
      Around("{", w, "}", rest);
    } else {
      SkipTwice(t);
      ParseMembersSkip(t, SkipWs(t), depth + 1);
      var members := OnlyMembers(t, depth + 1);
      v := ObjectText("", members);
      ObjectIs(members, depth);
      Around("{", EntriesText(members), "}", rest);
    }
  }

  lemma EmptyObject(w: string)
    requires Spaces(w)
    ensures Accepted(ObjectText(w, [])) && Short(ObjectText(w, [])) && Depth(ObjectText(w, [])) == 1
    ensures ValueOf(ObjectText(w, [])) == Object([]) && Text(ObjectText(w, [])) == "{" + w + "}"
  {
  }

  lemma ObjectIs(members: seq<Entry>, depth: nat)
    requires members != [] && (forall i | 0 <= i < |members| :: EntryOk(members[i])) && EntriesReadable(members, depth + 1)
    ensures var v := ObjectText("", members);
            Accepted(v) && Readable(v, depth) && ValueOf(v) == Object(EntryValues(members)) && Text(v) == "{" + EntriesText(members) + "}"
  {
    hide EntryOk, EntriesReadable, Accepted, Readable, ValueOf, Text;
    ObjectAccepted(members);
    ObjectSized(members, depth);
  }

  lemma ObjectAccepted(members: seq<Entry>)
    requires members != [] && forall i | 0 <= i < |members| :: EntryOk(members[i])
    ensures var v := ObjectText("", members);
            Accepted(v) && ValueOf(v) == Object(EntryValues(members)) && Text(v) == "{" + EntriesText(members) + "}"
  {
    hide EntryOk, EntriesText, EntryValues;
    assert Accepted(ObjectText("", members));
  }

  lemma ObjectSized(members: seq<Entry>, depth: nat)
    requires EntriesReadable(members, depth + 1)
    ensures Readable(ObjectText("", members), depth)
  {
    hide EntriesDepth;
    assert forall i | 0 <= i < |members| :: Items(members)[i].value == members[i].item.value;
  }

  /** A value with the whitespace around it. */
  lemma {:induction false} OnlyItem(s: string, depth: nat) returns (item: Item)
    requires Terminated(s) && depth <= 1000 && ParseValue(SkipWs(s), depth).Ok?
    ensures ItemOk(item) && Readable(item.value, depth)
    ensures var r := ParseValue(SkipWs(s), depth);
            r.value == ValueOf(item.value) && s == ItemText(item) + SkipWs(r.rest)
    decreases |s|, 1
  {
    hide ParseValue, SkipWs, Text, Accepted, Readable, Spaces;
    var w := Skipped(s);
    var v := OnlyValue(SkipWs(s), depth);
    var rest := ParseValue(SkipWs(s), depth).rest;
    var z := Skipped(rest);
    item := Item(w, v, z);
    assert w + (Text(v) + (z + SkipWs(rest))) == w + Text(v) + z + SkipWs(rest);
  }

  lemma {:induction false} OnlyItems(s: string, depth: nat) returns (items: seq<Item>)
    requires Terminated(s) && depth <= 1000 && ParseItems(s, depth).Ok?
    ensures items != [] && (forall i | 0 <= i < |items| :: ItemOk(items[i])) && ItemsReadable(items, depth)
    ensures ParseItems(s, depth).value == ItemValues(items) && s == ItemsText(items) + ("]" + ParseItems(s, depth).rest)
    decreases |s|, 2
  {
    hide ParseValue, ParseItems, SkipWs, ItemOk, ItemText, ItemsText, Readable, ItemsReadable, ItemValues, ValueOf, Terminated;
    ItemsStep(s, depth);
    var item := OnlyItem(s, depth);
    var r := ParseValue(SkipWs(s), depth);
    var t, rest := SkipWs(r.rest), ParseItems(s, depth).rest;
    SkipShorter(s);
    SkipShorter(r.rest);
    items := [item];
    if t[0] == ',' {
      var more := OnlyItems(t[1..], depth);
      items := [item] + more;
      assert items[1..] == more;
      assert t == "," + (ItemsText(more) + ("]" + rest));
    } else {
      assert t == "]" + rest;
    }
    ItemsJoin(items, rest);
    ItemsReadableFirst(items, depth);
    ItemValuesFirst(items);
  }

  lemma {:induction false} OnlyMembers(s: string, depth: nat) returns (members: seq<Entry>)
    requires Terminated(s) && depth <= 1000 && ParseMembers(s, depth).Ok?
    ensures members != [] && (forall i | 0 <= i < |members| :: EntryOk(members[i])) && EntriesReadable(members, depth)
    ensures ParseMembers(s, depth).value == EntryValues(members) && s == EntriesText(members) + ("}" + ParseMembers(s, depth).rest)
    decreases |s|, 2
  {
    hide ParseValue, ParseMembers, ParseString, SkipWs, EntryOk, EntryText, ItemText, EntriesText, Readable, EntriesReadable, EntryValues, ValueOf;
    hide Terminated, Seen;
    MembersStep(s, depth);
    var w, cs, tail, z := OnlyName(s);
    var k := ParseString(SkipWs(s));
    ByteBehind(SkipWs(k.rest));
    var u := SkipWs(k.rest)[1..];
    var item := OnlyItem(u, depth);
    var e := Entry(w, cs, tail, z, item);
    var r := ParseValue(SkipWs(u), depth);
    var t, rest := SkipWs(r.rest), ParseMembers(s, depth).rest;
    EntryIs(e, s, t);
    SkipShorter(u);
    SkipShorter(r.rest);
    members := [e];
    if t[0] == ',' {
      var more := OnlyMembers(t[1..], depth);
      members := [e] + more;
      assert members[1..] == more;
      assert t == "," + (EntriesText(more) + ("}" + rest));
    } else {
      assert t == "}" + rest;
    }
    EntriesJoin(members, rest);
    EntriesReadableFirst(members, depth);
    EntryValuesFirst(members);
  }

  lemma ByteBehind(t: string)
    requires Terminated(t)
    ensures t != "" && (t[0] != NUL ==> Terminated(t[1..]))
  {
  }

  /** The name of a member, with the whitespace around it. */
  lemma OnlyName(s: string) returns (w: string, cs: seq<Char>, tail: string, z: string)
    requires Terminated(s) && ParseString(SkipWs(s)).Ok?
    ensures Spaces(w) && CharsOk(cs) && TailOk(tail) && Spaces(z)
    ensures var k := ParseString(SkipWs(s));
            k.value == Seen(cs) && s == w + (Quoted(cs, tail) + (z + SkipWs(k.rest))) && |SkipWs(k.rest)| < |s|
  {
    hide ParseString, SkipWs, Spaces, CharsOk, TailOk, Seen, Quoted;
    w := Skipped(s);
    cs, tail := OnlyString(SkipWs(s));
    z := Skipped(ParseString(SkipWs(s)).rest);
    SkipShorter(s);
    SkipShorter(ParseString(SkipWs(s)).rest);
  }

  lemma EntryIs(e: Entry, s: string, t: string)
    requires Spaces(e.before) && CharsOk(e.key) && TailOk(e.tail) && Spaces(e.colon) && ItemOk(e.item)
    requires s == e.before + (Quoted(e.key, e.tail) + (e.colon + (":" + (ItemText(e.item) + t))))
    ensures EntryOk(e) && s == EntryText(e) + t
  {
    hide EntryText, Quoted, ItemText, Spaces, CharsOk, TailOk, ItemOk;
    EntryJoin(e, t);
  }

  /** A document that is taken has a derivation. */
  lemma OnlyDocument(text: string) returns (item: Item)
    requires CString(text) && Parse(text, true).Ok?
    ensures ItemOk(item) && ItemText(item) == text && Readable(item.value, 0) && ValueOf(item.value) == Parse(text, true).value
  {
    hide ParseValue, SkipWs, ItemOk, ItemText, Readable, ValueOf;
    TextEnds(text);
    var s := text + [NUL];
    item := OnlyItem(s, 0);
    var t := SkipWs(ParseValue(SkipWs(s), 0).rest);
    NulIsLast(t);
    assert s == ItemText(item) + t;
    assert ItemText(item) == s[..|s| - 1];
  }

  lemma TextEnds(text: string)
    requires CString(text)
    ensures Terminated(text + [NUL])
  {
    TerminatedConcat(text, [NUL]);
  }

  lemma NulIsLast(t: string)
    requires Terminated(t) && t[0] == NUL
    ensures t == [NUL]
  {
  }

  /** The documents that the parser takes, to the end, are exactly the texts of the grammar whose numbers have at most 63
      bytes and whose arrays and objects nest at most 1000 deep. */
  lemma TakenExactly(text: string)
    requires CString(text)
    ensures Parse(text, true).Ok? <==> exists item :: ItemOk(item) && ItemText(item) == text && Readable(item.value, 0)
  {
    hide Parse, ItemOk, ItemText, Readable, ValueOf;
    if Parse(text, true).Ok? {
      var item := OnlyDocument(text);
    }
    forall item | ItemOk(item) && ItemText(item) == text && Readable(item.value, 0)
      ensures Parse(text, true).Ok?
    {
      ReadDocument(item);
    }
  }

  /** Every document of RFC 8259 of that size is among them. */
  lemma RfcDocument(item: Item)
    requires RfcItem(item)
    ensures CString(ItemText(item)) && ItemOk(item)
    ensures Parse(ItemText(item), true) == if Readable(item.value, 0) then Ok(ValueOf(item.value), [NUL]) else Fail
  {
    hide Parse, RfcItem, ItemOk, ItemText, Readable, ValueOf;
    RfcItemIsOk(item);
    ReadDocument(item);
  }
}
