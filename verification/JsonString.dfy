/** String literals: the output buffer of parse_string always suffices, and Unicode escapes become UTF-8. */
module JsonString {
  import opened Options
  import opened JsonSpec

  // ---------- How much the second pass can write ----------

  /** t is what is left of a literal's body with the closing quote; inside says that the first pass takes
      t[0] as the byte after a backslash. Does the first pass then stop on the last byte of t? */
  predicate ScanOk(t: string, inside: bool)
    decreases |t|
  {
    if |t| == 0 then true
    else if |t| == 1 then !inside
    else ScanOk(t[1..], !inside && t[0] == '\\')
  }

  /** Body bytes left without the backslashes the first pass counts. */
  function Room(t: string, inside: bool): (n: nat)
    ensures n <= |t|
    decreases |t|
  {
    if |t| <= 1 then 0
    else (if !inside && t[0] == '\\' then 0 else 1) + Room(t[1..], !inside && t[0] == '\\')
  }

  /** Two bytes further on the first pass has counted at most one backslash. */
  lemma RoomTwo(t: string, inside: bool) returns (inside': bool)
    requires |t| >= 2 && ScanOk(t, inside)
    ensures ScanOk(t[2..], inside')
    ensures Room(t, inside) >= 1 + Room(t[2..], inside')
  {
    var i1 := !inside && t[0] == '\\';
    inside' := if |t| == 2 then false else !i1 && t[1] == '\\';
    assert t[1..][1..] == t[2..];
  }

  /** However the two passes disagree about where escapes start, n bytes read in pairs make room for n / 2. */
  lemma {:induction false} RoomPairs(t: string, inside: bool, n: nat) returns (inside': bool)
    requires 2 * n <= |t| && ScanOk(t, inside)
    ensures ScanOk(t[2 * n..], inside')
    ensures Room(t, inside) >= n + Room(t[2 * n..], inside')
  {
    if n == 0 {
      inside' := inside;
      assert t[0..] == t;
    } else {
      var i := RoomTwo(t, inside);
      inside' := RoomPairs(t[2..], i, n - 1);
      assert t[2..][2 * (n - 1)..] == t[2 * n..];
    }
  }

  lemma Utf16Length(t: string)
    ensures match Utf16Literal(t) case None => true case Some((u, n)) => 2 * |u| <= n
  {
    hide ParseHex4;
  }

  lemma DecodeUnfold(t: string)
    requires |t| > 1
    ensures t[0] != '\\' ==> Decode(t) == Prepend([t[0]], Decode(t[1..]))
    ensures t[0] == '\\' && t[1] == 'u' ==>
              var l := Utf16Literal(t);
              Decode(t) == if l.None? then None else Prepend(l.value.0, Decode(t[l.value.1..]))
    ensures t[0] == '\\' && t[1] != 'u' ==>
              var c := Unescape(t[1]);
              Decode(t) == if c.None? then None else Prepend([c.value], Decode(t[2..]))
  {
    hide Utf16Literal, Unescape;
  }

  lemma PlainRoom(u: string, inside: bool)
    requires |u| > 1 && u[0] != '\\'
    ensures ScanOk(u, inside) == ScanOk(u[1..], false) && Room(u, inside) == 1 + Room(u[1..], false)
  {
  }

  lemma DecodeNothing(t: string)
    requires |t| <= 1
    ensures Decode(t) == Some("")
  {
  }

  /** No literal writes more than the first pass allows. */
  lemma {:induction false} DecodeFits(t: string, inside: bool)
    requires ScanOk(t, inside)
    ensures Decode(t).Some? ==> |Decode(t).value| <= Room(t, inside)
    decreases |t|
  {
    hide Decode, Utf16Literal, Unescape, ScanOk, Room;
    if |t| <= 1 {
      DecodeNothing(t);
    } else {
      DecodeUnfold(t);
      if t[0] != '\\' {
        PlainRoom(t, inside);
        DecodeFits(t[1..], false);
      } else if t[1] == 'u' {
        var l := Utf16Literal(t);
        if l.Some? {
          Utf16Length(t);
          var n := l.value.1;
          var i := RoomPairs(t, inside, n / 2);
          DecodeFits(t[n..], i);
        }
      } else {
        var i := RoomTwo(t, inside);
        DecodeFits(t[2..], i);
      }
    }
  }

  /** The backslashes that the first pass counts in a body. */
  function Escapes(t: string): nat
    decreases |t|
  {
    if t == "" || t[0] == '\"' then 0
    else if t[0] == '\\' then if |t| < 2 then 0 else 1 + Escapes(t[2..])
    else Escapes(t[1..])
  }

  lemma EscapeRoom(u: string)
    requires |u| > 2 && u[0] == '\\'
    ensures ScanOk(u, false) == ScanOk(u[2..], false) && Room(u, false) == 1 + Room(u[2..], false)
  {
    assert u[1..][1..] == u[2..];
  }

  lemma QuoteRoom(u: string)
    requires |u| == 1
    ensures ScanOk(u, false) && Room(u, false) == 0
  {
  }

  /** One step of the first pass. */
  lemma ScanUnfold(t: string)
    requires ScanString(t).Some?
    ensures t != ""
    ensures t[0] == '\"' ==> ScanString(t) == Some(0) && Escapes(t) == 0
    ensures t[0] == '\\' ==>
              |t| > 2 && ScanString(t[2..]).Some? && ScanString(t).value == ScanString(t[2..]).value + 2 && Escapes(t) == 1 + Escapes(t[2..])
    ensures t[0] != '\"' && t[0] != '\\' ==>
              ScanString(t[1..]).Some? && ScanString(t).value == ScanString(t[1..]).value + 1 && Escapes(t) == Escapes(t[1..])
  {
  }

  /** A literal whose closing quote the first pass finds at n. */
  lemma {:induction false} ScanGivesRoom(t: string)
    requires ScanString(t).Some?
    ensures var n := ScanString(t).value;
            ScanOk(t[..n + 1], false) && Room(t[..n + 1], false) + Escapes(t) == n
    decreases |t|
  {
    hide ScanOk, Room, Escapes, ScanString;
    ScanUnfold(t);
    var n := ScanString(t).value;
    var u := t[..n + 1];
    if t[0] == '\"' {
      QuoteRoom(u);
    } else if t[0] == '\\' {
      ScanGivesRoom(t[2..]);
      assert u[2..] == t[2..][..n - 1];
      EscapeRoom(u);
    } else {
      ScanGivesRoom(t[1..]);
      assert u[1..] == t[1..][..n];
      PlainRoom(u, false);
    }
  }

  /** parse_string writes at most the body's length less the escapes of the first pass. */
  lemma OutputFits(t: string)
    requires ScanString(t).Some?
    ensures var n := ScanString(t).value;
            Escapes(t) <= n && (Decode(t[..n + 1]).Some? ==> |Decode(t[..n + 1]).value| <= n - Escapes(t))
  {
    ScanGivesRoom(t);
    DecodeFits(t[..ScanString(t).value + 1], false);
  }

  // ---------- UTF-8 ----------

  /** The Unicode scalar values: every code point but the surrogates. */
  predicate Scalar(cp: nat) {
    cp < 0xD800 || 0xE000 <= cp <= 0x10FFFF
  }

  /** The value of a continuation octet. */
  function Tail(c: char): int {
    c as int - 0x80
  }

  predicate Continues(u: string) {
    forall i | 1 <= i < |u| :: 0 <= Tail(u[i]) < 64
  }

  /** Section 3 of RFC 3629: the octets of a character number, for each of its four ranges. */
  predicate IsUtf8(cp: nat, u: string) {
    if cp < 0x80 then
      |u| == 1 && u[0] as nat == cp
    else if cp < 0x800 then
      |u| == 2 && Continues(u) && 0xC0 <= u[0] as nat < 0xE0
      && cp == (u[0] as nat - 0xC0) * 64 + Tail(u[1])
    else if cp < 0x10000 then
      |u| == 3 && Continues(u) && 0xE0 <= u[0] as nat < 0xF0
      && cp == (u[0] as nat - 0xE0) * 4096 + Tail(u[1]) * 64 + Tail(u[2])
    else
      |u| == 4 && Continues(u) && 0xF0 <= u[0] as nat < 0xF8
      && cp == (u[0] as nat - 0xF0) * 262144 + Tail(u[1]) * 4096 + Tail(u[2]) * 64 + Tail(u[3])
  }

  lemma EncodeIsUtf8(cp: nat)
    requires cp <= 0x10FFFF
    ensures IsUtf8(cp, EncodeUtf8(cp))
  {
    if 0x800 <= cp < 0x10000 {
      assert cp / 4096 == cp / 64 / 64;
    } else if cp >= 0x10000 {
      assert cp / 4096 == cp / 64 / 64 && cp / 262144 == cp / 64 / 64 / 64;
    }
  }

  lemma SameDigits(q: nat, r: nat, p: nat, s: nat)
    requires 64 * q + r == 64 * p + s && r < 64 && s < 64
    ensures q == p && r == s
  {
  }

  /** Nothing else is the UTF-8 form of cp. */
  lemma Utf8Unique(cp: nat, u: string, w: string)
    requires IsUtf8(cp, u) && IsUtf8(cp, w)
    ensures u == w
  {
    if cp >= 0x10000 {
      var a, b := u[0] as nat - 0xF0, w[0] as nat - 0xF0;
      var a1, b1 := 64 * a + Tail(u[1]), 64 * b + Tail(w[1]);
      var a2, b2 := 64 * a1 + Tail(u[2]), 64 * b1 + Tail(w[2]);
      SameDigits(a2, Tail(u[3]), b2, Tail(w[3]));
      SameDigits(a1, Tail(u[2]), b1, Tail(w[2]));
      SameDigits(a, Tail(u[1]), b, Tail(w[1]));
    }
  }

  /** The code works with masks: this is what they mean for a continuation octet and for the first one. */
  lemma MaskArithmetic(c: bv32)
    ensures (c | 0x80) & 0xBF == 0x80 + c % 64 && c >> 6 == c / 64
    ensures c < 0x80 ==> c & 0x7F == c
    ensures c < 0x20 ==> (c | 0xC0) & 0xFF == 0xC0 + c
    ensures c < 0x10 ==> (c | 0xE0) & 0xFF == 0xE0 + c
    ensures c < 0x08 ==> (c | 0xF0) & 0xFF == 0xF0 + c
  {
  }

  /** The two surrogates put together: shifting and or-ing add up. */
  lemma SurrogateBits(first: bv32, second: bv32)
    ensures ((first & 0x3FF) << 10) | (second & 0x3FF) == first % 0x400 * 0x400 + second % 0x400
  {
  }

  // ---------- Escapes of one code point ----------

  /** A backslash, u and four hexadecimal digits, in either case, for h. */
  predicate IsEscape(e: string, h: nat) {
    |e| == 6 && e[0] == '\\' && e[1] == 'u' && (forall i | 2 <= i < 6 :: HexValue(e[i]).Some?) && ParseHex4(e[2..]) == h
  }

  /** The one-literal form of a scalar value below 0x10000, followed by rest. */
  lemma LiteralDecodes(e: string, cp: nat, rest: string)
    requires cp < 0x10000 && Scalar(cp) && IsEscape(e, cp) && |rest| > 0
    ensures Decode(e + rest) == Prepend(EncodeUtf8(cp), Decode(rest)) && IsUtf8(cp, EncodeUtf8(cp))
  {
    hide Decode, ParseHex4, EncodeUtf8, HexValue, IsUtf8;
    EncodeIsUtf8(cp);
    HexEscapeDecodes(e, rest);
  }

  lemma SurrogateArithmetic(cp: nat)
    requires 0x10000 <= cp <= 0x10FFFF
    ensures var h, l := 0xD800 + (cp - 0x10000) / 0x400, 0xDC00 + (cp - 0x10000) % 0x400;
            0xD800 <= h <= 0xDBFF && 0xDC00 <= l <= 0xDFFF
            && 0x10000 + h % 0x400 * 0x400 + l % 0x400 == cp
  {
    var q, r := (cp - 0x10000) / 0x400, (cp - 0x10000) % 0x400;
    assert q < 0x400;
    assert 0xD800 == 54 * 0x400 && 0xDC00 == 55 * 0x400;
  }

  lemma PairLiteral(t: string, cp: nat)
    requires 0x10000 <= cp <= 0x10FFFF && |t| > 12 && t[6] == '\\' && t[7] == 'u'
    requires ParseHex4(t[2..6]) == 0xD800 + (cp - 0x10000) / 0x400
    requires ParseHex4(t[8..12]) == 0xDC00 + (cp - 0x10000) % 0x400
    ensures Utf16Literal(t) == Some((EncodeUtf8(cp), 12))
  {
    hide ParseHex4, EncodeUtf8;
    SurrogateArithmetic(cp);
  }

  /** The two-literal form of a scalar value from 0x10000 on: the surrogates of section 7 of RFC 8259. */
  lemma PairDecodes(e: string, f: string, cp: nat, rest: string)
    requires 0x10000 <= cp <= 0x10FFFF && |rest| > 0
    requires IsEscape(e, 0xD800 + (cp - 0x10000) / 0x400) && IsEscape(f, 0xDC00 + (cp - 0x10000) % 0x400)
    ensures Decode(e + f + rest) == Prepend(EncodeUtf8(cp), Decode(rest)) && IsUtf8(cp, EncodeUtf8(cp))
  {
    var t := e + f + rest;
    assert t[2..6] == e[2..] && t[8..12] == f[2..] && t[12..] == rest;
    hide Decode, ParseHex4, EncodeUtf8, HexValue, IsUtf8, Utf16Literal;
    PairLiteral(t, cp);
    EncodeIsUtf8(cp);
    DecodeUnfold(t);
  }

  /** A surrogate that stands alone is refused. */
  lemma LoneSurrogateFails(e: string, h: nat, rest: string)
    requires 0xD800 <= h < 0xE000 && IsEscape(e, h) && |rest| > 0
    requires h >= 0xDC00 || !("\\u" <= rest)
    ensures Decode(e + rest) == None
  {
    var t := e + rest;
    DecodeUnfold(t);
    assert t[2..6] == e[2..];
    assert |rest| >= 2 ==> t[6] == rest[0] && t[7] == rest[1];
    hide Decode, ParseHex4, EncodeUtf8, HexValue;
  }

  /** A scalar value as one literal, or as two from 0x10000 on. */
  predicate EscapedForm(e: string, cp: nat) {
    Scalar(cp)
    && if cp < 0x10000 then IsEscape(e, cp)
       else
         |e| == 12 && IsEscape(e[..6], 0xD800 + (cp - 0x10000) / 0x400) && IsEscape(e[6..], 0xDC00 + (cp - 0x10000) % 0x400)
  }

  function Concat(es: seq<string>): string {
    if es == [] then "" else es[0] + Concat(es[1..])
  }

  function Utf8All(cps: seq<nat>): string
    requires forall i | 0 <= i < |cps| :: Scalar(cps[i])
  {
    if cps == [] then ""
    else
      assert Scalar(cps[0]);
      EncodeUtf8(cps[0]) + Utf8All(cps[1..])
  }

  /** A literal of escapes decodes to the UTF-8 form of its text, whatever the text is. */
  lemma {:induction false} EscapedTextDecodes(es: seq<string>, cps: seq<nat>)
    requires |es| == |cps| && (forall i | 0 <= i < |cps| :: Scalar(cps[i]))
    requires forall i | 0 <= i < |es| :: EscapedForm(es[i], cps[i])
    ensures Decode(Concat(es) + "\"") == Some(Utf8All(cps))
  {
    hide Decode, IsEscape, EncodeUtf8, IsUtf8, EscapedForm;
    if es == [] {
      DecodeNothing("\"");
      assert Concat(es) + "\"" == "\"";
    } else {
      var rest := Concat(es[1..]) + "\"";
      assert EscapedForm(es[0], cps[0]);
      OneDecodes(es[0], cps[0], rest);
      EscapedTextDecodes(es[1..], cps[1..]);
      assert Concat(es) + "\"" == es[0] + rest;
    }
  }

  lemma OneDecodes(e: string, cp: nat, rest: string)
    requires EscapedForm(e, cp) && |rest| > 0
    ensures Scalar(cp) && Decode(e + rest) == Prepend(EncodeUtf8(cp), Decode(rest))
  {
    hide Decode, IsEscape, EncodeUtf8, IsUtf8;
    if cp < 0x10000 {
      LiteralDecodes(e, cp, rest);
    } else {
      PairDecodes(e[..6], e[6..], cp, rest);
      assert e[..6] + e[6..] + rest == e + rest;
    }
  }

  // ---------- Escapes whose digits are none ----------

  /** The number that four digits write, most significant first; none if a byte is no digit. */
  function HexNumber(s: string): Option<nat> {
    if s == "" then Some(0)
    else
      var front, last := HexNumber(s[..|s| - 1]), HexValue(s[|s| - 1]);
      if front.Some? && last.Some? then Some(16 * front.value + last.value) else None
  }

  lemma {:induction false} HexNumberDigits(s: string)
    ensures HexNumber(s).Some? <==> forall i | 0 <= i < |s| :: HexValue(s[i]).Some?
  {
    hide HexValue;
    if s != "" {
      HexNumberDigits(s[..|s| - 1]);
    }
  }

  /** parse_hex4 gives the number written exactly if one is written; otherwise it gives 0. */
  lemma ParseHex4Exact(s: string)
    requires |s| == 4
    ensures HexNumber(s) == Some(ParseHex4(s)) <==> forall i | 0 <= i < 4 :: HexValue(s[i]).Some?
    ensures HexNumber(s) == None ==> ParseHex4(s) == 0
  {
    hide HexValue;
    HexNumberDigits(s);
    var t, u, v := s[..3], s[..2], s[..1];
    assert t[..2] == u && u[..1] == v && v[..0] == "";
    assert HexNumber(v) == if HexValue(s[0]).Some? then Some(HexValue(s[0]).value) else None;
    assert HexNumber(u) == if HexNumber(v).Some? && HexValue(s[1]).Some? then Some(16 * HexNumber(v).value + HexValue(s[1]).value) else None;
    assert HexNumber(t) == if HexNumber(u).Some? && HexValue(s[2]).Some? then Some(16 * HexNumber(u).value + HexValue(s[2]).value) else None;
  }

  /** The code point that an escape is taken for. */
  function Taken(e: string): nat
    requires |e| == 6
  {
    ParseHex4(e[2..])
  }

  /** Every escape that stands for no surrogate decodes to what parse_hex4 makes of it, digits or not. */
  lemma HexEscapeDecodes(e: string, rest: string)
    requires |e| == 6 && e[0] == '\\' && e[1] == 'u' && |rest| > 0
    requires Scalar(Taken(e))
    ensures Decode(e + rest) == Prepend(EncodeUtf8(Taken(e)), Decode(rest))
  {
    var t := e + rest;
    DecodeUnfold(t);
    assert t[2..6] == e[2..] && t[6..] == rest;
    hide Decode, ParseHex4, EncodeUtf8, HexValue;
  }

  /** An escape with a byte that is no digit is taken for the NUL, where what the caller sees of the string ends.
      It is refused only if the rest of the literal is. */
  lemma MalformedHexIsNul(e: string, rest: string)
    requires |e| == 6 && e[0] == '\\' && e[1] == 'u' && |rest| > 0
    requires HexNumber(e[2..]) == None
    ensures Decode(e + rest) == Prepend([NUL], Decode(rest))
    ensures Decode(e + rest) == None <==> Decode(rest) == None
    ensures Decode(rest).Some? ==> CStr(Decode(e + rest).value) == ""
  {
    hide Decode, ParseHex4, HexValue, HexNumber;
    ParseHex4Exact(e[2..]);
    HexEscapeDecodes(e, rest);
  }

  /** The code point taken is the one written exactly if all four bytes are digits. */
  lemma TakenIsWritten(e: string)
    requires |e| == 6
    ensures HexNumber(e[2..]) == Some(Taken(e)) <==> forall i | 2 <= i < 6 :: HexValue(e[i]).Some?
  {
    hide HexValue, HexNumber, ParseHex4;
    ParseHex4Exact(e[2..]);
    var s := e[2..];
    assert forall i | 0 <= i < 4 :: s[i] == e[i + 2];
    assert forall i | 2 <= i < 6 :: e[i] == s[i - 2];
  }
}
