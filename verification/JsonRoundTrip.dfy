/** Parsing what was printed gives the value back. */
module JsonRoundTrip {
  import opened Options
  import opened JsonSpec
  import opened JsonSteps

  // ---------- C strings ----------

  lemma TerminatedConcat(a: string, b: string)
    requires CString(a) && Terminated(b)
    ensures Terminated(a + b)
  {
    forall i | 0 <= i < |a + b| - 1
      ensures (a + b)[i] != NUL
    {
      if i < |a| {
        assert (a + b)[i] in a;
      } else {
        assert (a + b)[i] == b[i - |a|];
      }
    }
  }

  lemma EscapeCharCString(c: char)
    requires c != NUL
    ensures CString(EscapeChar(c))
  {}

  lemma {:induction false} EscapeCString(s: string)
    requires CString(s)
    ensures CString(Escape(s)) && CString(Quote(s))
  {
    if s != "" {
      EscapeCharCString(s[0]);
      EscapeCString(s[1..]);
    }
  }

  lemma {:induction false} DigitsAreDigits(n: nat)
    ensures forall i | 0 <= i < |Digits(n)| :: Digit(Digits(n)[i])
  {
    if n >= 10 {
      DigitsAreDigits(n / 10);
    }
  }

  lemma PrintIntCString(n: int)
    ensures CString(PrintInt(n))
  {
    DigitsAreDigits(if n < 0 then -n else n);
  }

  lemma {:induction false} PrintCString(v: Json, format: bool, depth: nat)
    requires Printable(v)
    ensures CString(Print(v, format, depth))
    decreases v, 0
  {
    match v
    case Number(m, _) => PrintIntCString(m);
    case String(s) => EscapeCString(s);
    case Array(items) => PrintItemsCString(items, format, depth + 1);
    case Object(members) => PrintMembersCString(members, format, depth + 1);
    case _ =>
  }

  lemma {:induction false} PrintItemsCString(items: seq<Json>, format: bool, depth: nat)
    requires forall i | 0 <= i < |items| :: Printable(items[i])
    ensures CString(PrintItems(items, format, depth))
    decreases items, 1
  {
    if items != [] {
      PrintCString(items[0], format, depth);
      PrintItemsCString(items[1..], format, depth);
    }
  }

  lemma {:induction false} PrintMembersCString(members: seq<Member>, format: bool, depth: nat)
    requires forall i | 0 <= i < |members| :: CString(members[i].key) && Printable(members[i].value)
    ensures CString(PrintMembers(members, format, depth))
    decreases members, 1
  {
    if members != [] {
      EscapeCString(members[0].key);
      PrintCString(members[0].value, format, depth);
      PrintMembersCString(members[1..], format, depth);
    }
  }

  // ---------- String literals ----------

  lemma HexDigitValue(n: nat)
    requires n < 16
    ensures HexValue(HexDigit(n)) == Some(n)
  {}

  lemma ControlEscape(c: char)
    requires c < ' '
    ensures ParseHex4("00" + [HexDigit(c as nat / 16), HexDigit(c as nat % 16)]) == c as nat
  {
    HexDigitValue(c as nat / 16);
    HexDigitValue(c as nat % 16);
  }

  lemma ScanPlain(c: char, t: string)
    requires c != '\"' && c != '\\'
    ensures ScanString([c] + t) == Shift(1, ScanString(t))
  {
    assert ([c] + t)[1..] == t;
  }

  lemma ScanEscape(c: char, t: string)
    ensures ScanString(['\\', c] + t) == Shift(2, ScanString(t))
  {
    assert (['\\', c] + t)[2..] == t;
  }

  lemma HexDigitPlain(n: nat)
    requires n < 16
    ensures HexDigit(n) != '\"' && HexDigit(n) != '\\'
  {}

  lemma EscapeCharScan(c: char, t: string)
    ensures ScanString(EscapeChar(c) + t) == Shift(|EscapeChar(c)|, ScanString(t))
  {
    hide ScanString, HexDigit;
    var e := EscapeChar(c);
    if |e| == 1 {
      ScanPlain(c, t);
    } else if |e| == 2 {
      assert e + t == ['\\', e[1]] + t;
      ScanEscape(e[1], t);
    } else {
      HexDigitPlain(c as nat / 16);
      HexDigitPlain(c as nat % 16);
      var t5 := [e[5]] + t;
      var t4 := [e[4]] + t5;
      var t3 := [e[3]] + t4;
      var t2 := [e[2]] + t3;
      ScanPlain(e[5], t);
      ScanPlain(e[4], t5);
      ScanPlain(e[3], t4);
      ScanPlain(e[2], t3);
      ScanEscape(e[1], t2);
      assert e + t == ['\\', e[1]] + t2;
    }
  }

  lemma ControlDecode(c: char, t: string)
    requires NUL < c < ' ' && t != ""
    ensures Decode("\\u00" + [HexDigit(c as nat / 16), HexDigit(c as nat % 16)] + t) == Prepend([c], Decode(t))
  {
    hide HexDigit, HexValue, ParseHex4;
    var u := "\\u00" + [HexDigit(c as nat / 16), HexDigit(c as nat % 16)] + t;
    assert u[2..6] == "00" + [HexDigit(c as nat / 16), HexDigit(c as nat % 16)];
    ControlEscape(c);
    assert u[6..] == t;
    assert Utf16Literal(u) == Some(([c], 6));
  }

  lemma PlainDecode(c: char, t: string)
    requires c != '\\' && t != ""
    ensures Decode([c] + t) == Prepend([c], Decode(t))
  {
    assert ([c] + t)[1..] == t;
  }

  lemma SimpleDecode(e: char, c: char, t: string)
    requires Unescape(e) == Some(c) && t != ""
    ensures Decode(['\\', e] + t) == Prepend([c], Decode(t))
  {
    assert (['\\', e] + t)[2..] == t;
  }

  lemma EscapeCharDecode(c: char, t: string)
    requires c != NUL && t != ""
    ensures Decode(EscapeChar(c) + t) == Prepend([c], Decode(t))
  {
    hide HexDigit, Decode;
    var e := EscapeChar(c);
    if |e| == 1 {
      PlainDecode(c, t);
    } else if |e| == 2 {
      SimpleDecode(e[1], c, t);
      assert e == ['\\', e[1]];
    } else {
      ControlDecode(c, t);
    }
  }

  lemma EmptyBody(rest: string)
    ensures ScanString("\"" + rest) == Some(0) && Decode("\"") == Some("")
  {}

  lemma {:induction false} EscapeDecodes(s: string, rest: string)
    requires CString(s)
    ensures ScanString(Escape(s) + "\"" + rest) == Some(|Escape(s)|)
    ensures Decode(Escape(s) + "\"") == Some(s)
  {
    hide EscapeChar, Decode, ScanString;
    if s == "" {
      EmptyBody(rest);
      assert Escape(s) + "\"" + rest == "\"" + rest;
      assert Escape(s) + "\"" == "\"";
    } else {
      var e := Escape(s[1..]);
      EscapeDecodes(s[1..], rest);
      EscapeCharScan(s[0], e + "\"" + rest);
      assert Escape(s) + "\"" + rest == EscapeChar(s[0]) + (e + "\"" + rest);
      EscapeCharDecode(s[0], e + "\"");
      assert Escape(s) + "\"" == EscapeChar(s[0]) + (e + "\"");
      assert [s[0]] + s[1..] == s;
    }
  }

  lemma {:induction false} CStrOfCString(s: string)
    requires CString(s)
    ensures CStr(s) == s
  {
    if s != "" {
      CStrOfCString(s[1..]);
    }
  }

  /** The quoted and escaped form of a C string is read back as the string. */
  lemma ParseQuote(s: string, rest: string)
    requires CString(s) && Terminated(rest)
    ensures Terminated(Quote(s) + rest)
    ensures ParseString(Quote(s) + rest) == Ok(s, rest)
  {
    hide Escape, Decode, ScanString, CStr, Terminated;
    EscapeCString(s);
    TerminatedConcat(Quote(s), rest);
    EscapeDecodes(s, rest);
    CStrOfCString(s);
    var t, n := Quote(s) + rest, |Escape(s)|;
    assert t[0] == '\"';
    assert t[1..] == Escape(s) + "\"" + rest;
    assert t[1..n + 2] == Escape(s) + "\"";
    assert t[n + 2..] == rest;
  }

  // ---------- Numbers ----------

  lemma {:induction false} DigitsValue(n: nat)
    ensures NatValue(Digits(n)) == n
  {
    if n < 10 {
      assert Digits(n)[..0] == "";
    } else {
      DigitsValue(n / 10);
      assert Digits(n)[..|Digits(n)| - 1] == Digits(n / 10);
    }
  }

  function Pow10(k: nat): nat {
    if k == 0 then 1 else 10 * Pow10(k - 1)
  }

  lemma Pow10Of15()
    ensures Pow10(15) == 1_000_000_000_000_000
  {
    assert Pow10(5) == 100_000;
    assert Pow10(10) == 10_000_000_000;
  }

  lemma {:induction false} DigitsLength(n: nat, k: nat)
    requires n < Pow10(k) && k > 0
    ensures |Digits(n)| <= k
  {
    if n >= 10 {
      DigitsLength(n / 10, k - 1);
    }
  }

  lemma {:induction false} DigitRunAll(d: string)
    requires forall i | 0 <= i < |d| :: Digit(d[i])
    ensures DigitRun(d) == |d|
  {
    if d != "" {
      DigitRunAll(d[1..]);
    }
  }

  lemma {:induction false} NumericRunAll(d: string, t: string, max: nat)
    requires |d| <= max && t != "" && !Numeric(t[0])
    requires forall i | 0 <= i < |d| :: Numeric(d[i])
    ensures NumericRun(d + t, max) == |d|
  {
    if d == "" {
      assert d + t == t;
    } else {
      assert (d + t)[1..] == d[1..] + t;
      NumericRunAll(d[1..], t, max - 1);
    }
  }

  lemma StrtodInt(n: int)
    ensures Strtod(PrintInt(n)) == Some((n, 0, |PrintInt(n)|))
  {
    hide Digits, NatValue, DigitRun;
    var s := PrintInt(n);
    var d := Digits(if n < 0 then -n else n);
    var sign := if n < 0 then 1 else 0;
    DigitsAreDigits(if n < 0 then -n else n);
    DigitsValue(if n < 0 then -n else n);
    DigitRunAll(d);
    assert Digit(d[0]);
    assert SignLength(s) == sign && s[sign..] == d && s[sign..|s|] == d && s[|s|..] == "";
    assert d + "" == d;
  }

  /** A printed integer below 10^15 is read back, whatever byte ends it. */
  lemma ParseInt(n: int, rest: string)
    requires -1_000_000_000_000_000 < n < 1_000_000_000_000_000
    requires Terminated(rest) && !Numeric(rest[0])
    ensures Terminated(PrintInt(n) + rest)
    ensures ParseNumber(PrintInt(n) + rest) == Ok(Number(n, 0), rest)
  {
    hide Strtod, Digits, NumericRun, Terminated;
    var s := PrintInt(n);
    PrintIntCString(n);
    TerminatedConcat(s, rest);
    DigitsAreDigits(if n < 0 then -n else n);
    Pow10Of15();
    DigitsLength(if n < 0 then -n else n, 15);
    NumericRunAll(s, rest, 63);
    StrtodInt(n);
    assert (s + rest)[..|s|] == s && (s + rest)[|s|..] == rest;
  }

  // ---------- One step of the parser ----------

  function Expect<T>(ok: bool, v: T, rest: string): Result<T> {
    if ok then Ok(v, rest) else Fail
  }

  /** What may follow a printed value: the end, or a byte that cannot belong to a number. */
  predicate After(rest: string) {
    Terminated(rest) && !Numeric(rest[0])
  }

  lemma SkipNothing(s: string)
    requires Terminated(s) && s[0] > ' '
    ensures SkipWs(s) == s
  {}

  lemma SkipOne(c: char, s: string)
    requires Terminated(s) && NUL < c <= ' '
    ensures Terminated([c] + s) && SkipWs([c] + s) == SkipWs(s)
  {
    TerminatedConcat([c], s);
    assert ([c] + s)[1..] == s;
  }

  lemma {:induction false} SkipIndent(format: bool, n: nat, s: string)
    requires Terminated(s)
    ensures Terminated(Indent(format, n) + s) && SkipWs(Indent(format, n) + s) == SkipWs(s)
  {
    if !format || n == 0 {
      assert Indent(format, n) + s == s;
    } else {
      SkipIndent(format, n - 1, s);
      assert Indent(format, n) + s == ['\t'] + (Indent(format, n - 1) + s);
      SkipOne('\t', Indent(format, n - 1) + s);
    }
  }

  lemma ParseItemsSkip(s: string, t: string, depth: nat)
    requires Terminated(s) && Terminated(t) && SkipWs(s) == SkipWs(t)
    ensures ParseItems(s, depth) == ParseItems(t, depth)
  {
    hide ParseValue, SkipWs, Terminated;
  }

  lemma ParseMembersSkip(s: string, t: string, depth: nat)
    requires Terminated(s) && Terminated(t) && SkipWs(s) == SkipWs(t)
    ensures ParseMembers(s, depth) == ParseMembers(t, depth)
  {
    hide ParseValue, ParseString, SkipWs, Terminated;
  }

  lemma ParseNull(rest: string, depth: nat)
    requires Terminated(rest)
    ensures Terminated("null" + rest) && ParseValue("null" + rest, depth) == Ok(Null, rest)
  {
    hide Terminated, ParseValue;
    var s := "null" + rest;
    TerminatedConcat("null", rest);
    ValueIsWord(s, depth);
    assert "null" <= s && s[4..] == rest;
  }

  lemma ParseFalse(rest: string, depth: nat)
    requires Terminated(rest)
    ensures Terminated("false" + rest) && ParseValue("false" + rest, depth) == Ok(False, rest)
  {
    hide Terminated, ParseValue;
    var s := "false" + rest;
    TerminatedConcat("false", rest);
    ValueIsWord(s, depth);
    assert "false" <= s && s[5..] == rest;
  }

  lemma ParseTrue(rest: string, depth: nat)
    requires Terminated(rest)
    ensures Terminated("true" + rest) && ParseValue("true" + rest, depth) == Ok(True, rest)
  {
    hide Terminated, ParseValue;
    var s := "true" + rest;
    TerminatedConcat("true", rest);
    ValueIsWord(s, depth);
    assert "true" <= s && s[4..] == rest;
  }

  /** An array that does not close at once. */
  lemma ParseValueArray(s: string, depth: nat)
    requires Terminated(s) && s[0] > ' ' && s[0] != ']'
    ensures Terminated("[" + s)
    ensures ParseValue("[" + s, depth) == if depth >= NESTING_LIMIT then Fail else ArrayValue(ParseItems(s, depth + 1))
  {
    hide Terminated, ParseItems, ParseValue, SkipWs;
    var t := "[" + s;
    TerminatedConcat("[", s);
    SkipNothing(s);
    NoWordFirst(t);
    ValueIsArray(t, depth);
    assert t[1..] == s;
  }

  lemma ParseValueEmptyArray(rest: string, depth: nat)
    requires Terminated(rest)
    ensures Terminated("[]" + rest)
    ensures ParseValue("[]" + rest, depth) == Expect(depth < NESTING_LIMIT, Array([]), rest)
  {
    hide Terminated, ParseItems, ParseValue, SkipWs;
    var t := "[]" + rest;
    TerminatedConcat("]", rest);
    TerminatedConcat("[]", rest);
    SkipNothing("]" + rest);
    NoWordFirst(t);
    ValueIsArray(t, depth);
    assert t[1..] == "]" + rest && ("]" + rest)[1..] == rest;
  }

  /** An object; s is what follows the brace. */
  lemma ParseValueObject(s: string, depth: nat)
    requires Terminated(s)
    ensures Terminated("{" + s)
    ensures ParseValue("{" + s, depth) ==
      if depth >= NESTING_LIMIT then Fail
      else if SkipWs(s)[0] == '}' then Ok(Object([]), SkipWs(s)[1..])
      else ObjectValue(ParseMembers(s, depth + 1))
  {
    hide Terminated, ParseMembers, ParseValue, SkipWs;
    var t := "{" + s;
    TerminatedConcat("{", s);
    SkipTwice(s);
    ParseMembersSkip(s, SkipWs(s), depth + 1);
    NoWordFirst(t);
    ValueIsObject(t, depth);
    assert t[1..] == s;
  }

  lemma {:induction false} SkipTwice(s: string)
    requires Terminated(s)
    ensures SkipWs(SkipWs(s)) == SkipWs(s)
  {
    if s[0] <= ' ' && |s| > 1 {
      SkipTwice(s[1..]);
    }
  }

  // ---------- The round trip ----------

  lemma PrintFirst(v: Json, format: bool, depth: nat)
    requires Printable(v)
    ensures var p := Print(v, format, depth); |p| > 0 && p[0] > ' ' && p[0] != ']'
  {
    if v.Number? {
      DigitsAreDigits(if v.mantissa < 0 then -v.mantissa else v.mantissa);
    }
  }

  /** The text of v, followed by rest, is read as v and leaves rest, unless it is nested too deeply:
      then it is refused. */
  lemma {:induction false} ParsePrint(v: Json, format: bool, d: nat, depth: nat, rest: string)
    requires Printable(v) && After(rest) && depth <= NESTING_LIMIT
    ensures Terminated(Print(v, format, d) + rest)
    ensures ParseValue(Print(v, format, d) + rest, depth) == Expect(depth + Nesting(v) <= NESTING_LIMIT, v, rest)
    decreases v, 0
  {
    hide Terminated, ParseValue, ParseNumber, ParseString, Numeric, Quote, PrintInt, NoWord;
    PrintCString(v, format, d);
    TerminatedConcat(Print(v, format, d), rest);
    match v
    case Null => ParseNull(rest, depth);
    case False => ParseFalse(rest, depth);
    case True => ParseTrue(rest, depth);
    case Number(m, _) =>
      ParseInt(m, rest);
      PrintIntFirst(m, rest);
      NoWordFirst(PrintInt(m) + rest);
      ValueIsOther(PrintInt(m) + rest, depth);
    case String(s) =>
      ParseQuote(s, rest);
      QuoteFirst(s, rest);
      NoWordFirst(Quote(s) + rest);
      ValueIsOther(Quote(s) + rest, depth);
    case Array(items) => ParsePrintArray(items, format, d, depth, rest);
    case Object(members) => ParsePrintObject(members, format, d, depth, rest);
  }

  lemma PrintIntFirst(n: int, rest: string)
    ensures var c := (PrintInt(n) + rest)[0]; c == '-' || Digit(c)
  {
    DigitsAreDigits(if n < 0 then -n else n);
  }

  lemma {:induction false} ParsePrintArray(items: seq<Json>, format: bool, d: nat, depth: nat, rest: string)
    requires (forall i | 0 <= i < |items| :: Printable(items[i])) && After(rest) && depth <= NESTING_LIMIT
    ensures var s := "[" + PrintItems(items, format, d + 1) + "]" + rest;
            Terminated(s) && ParseValue(s, depth) == Expect(depth + 1 + NestingItems(items) <= NESTING_LIMIT, Array(items), rest)
    decreases items, 2
  {
    hide Terminated, ParseValue, ParseItems, Print, Numeric;
    if items == [] {
      assert "[" + PrintItems(items, format, d + 1) + "]" + rest == "[]" + rest;
      ParseValueEmptyArray(rest, depth);
    } else {
      var tail := "]" + rest;
      var s := PrintItems(items, format, d + 1) + tail;
      assert "[" + PrintItems(items, format, d + 1) + "]" + rest == "[" + s;
      TerminatedConcat("]", rest);
      PrintItemsCString(items, format, d + 1);
      TerminatedConcat(PrintItems(items, format, d + 1), tail);
      PrintFirst(items[0], format, d + 1);
      assert s[0] == Print(items[0], format, d + 1)[0];
      ParseValueArray(s, depth);
      if depth < NESTING_LIMIT {
        ParsePrintItems(items, format, d + 1, depth + 1, tail);
        assert tail[1..] == rest;
      }
    }
  }

  lemma ItemsConcat(items: seq<Json>, format: bool, d: nat, tail: string)
    requires items != []
    ensures PrintItems(items, format, d) + tail
         == Print(items[0], format, d) + (Comma(format, |items| == 1) + (PrintItems(items[1..], format, d) + tail))
  {
    hide Print, Comma;
    Assoc(Print(items[0], format, d) + Comma(format, |items| == 1), PrintItems(items[1..], format, d), tail);
    Assoc(Print(items[0], format, d), Comma(format, |items| == 1), PrintItems(items[1..], format, d) + tail);
  }

  lemma NoItems(items: seq<Json>, format: bool, d: nat, tail: string)
    requires items == []
    ensures PrintItems(items, format, d) + tail == tail
  {}

  /** What follows an item: the closing bracket, or a comma and the other items. */
  lemma AfterComma(format: bool, last: bool, next: string)
    requires Terminated(next) && (last ==> next[0] == ']')
    ensures var more := Comma(format, last) + next;
            && After(more) && more[0] > ' '
            && (if last then more == next
                else more[0] == ',' && Terminated(more[1..]) && SkipWs(more[1..]) == SkipWs(next))
  {
    TerminatedConcat(Comma(format, last), next);
    SkipOne(' ', next);
    hide Terminated, SkipWs;
    var more := Comma(format, last) + next;
    if last {
      assert more == next;
    } else {
      assert more[1..] == if format then [' '] + next else next;
    }
  }

  lemma {:induction false} ParsePrintItems(items: seq<Json>, format: bool, d: nat, depth: nat, tail: string)
    requires items != [] && (forall i | 0 <= i < |items| :: Printable(items[i]))
    requires Terminated(tail) && tail[0] == ']' && depth <= NESTING_LIMIT
    ensures var s := PrintItems(items, format, d) + tail;
            Terminated(s) && ParseItems(s, depth) == Expect(depth + NestingItems(items) <= NESTING_LIMIT, items, tail[1..])
    decreases items, 1
  {
    hide Terminated, ParseValue, ParseItems, Print, PrintItems, SkipWs, Comma, Numeric;
    var s := PrintItems(items, format, d) + tail;
    var next := PrintItems(items[1..], format, d) + tail;
    var more := Comma(format, |items| == 1) + next;
    ItemsConcat(items, format, d, tail);
    PrintItemsCString(items[1..], format, d);
    TerminatedConcat(PrintItems(items[1..], format, d), tail);
    if |items| == 1 {
      NoItems(items[1..], format, d, tail);
    }
    AfterComma(format, |items| == 1, next);
    ParsePrint(items[0], format, d, depth, more);
    PrintFirst(items[0], format, d);
    SkipNothing(s);
    SkipNothing(more);
    ItemsStep(s, depth);
    if |items| == 1 {
      assert items == [items[0]] && NestingItems(items[1..]) == 0;
    } else {
      ParseItemsSkip(more[1..], next, depth);
      ParsePrintItems(items[1..], format, d, depth, tail);
      assert items == [items[0]] + items[1..];
    }
  }

  lemma {:induction false} ParsePrintObject(members: seq<Member>, format: bool, d: nat, depth: nat, rest: string)
    requires forall i | 0 <= i < |members| :: CString(members[i].key) && Printable(members[i].value)
    requires After(rest) && depth <= NESTING_LIMIT
    ensures var s := Open(format) + PrintMembers(members, format, d + 1) + Indent(format, d) + "}" + rest;
            && Terminated(s)
            && ParseValue(s, depth) == Expect(depth + 1 + NestingMembers(members) <= NESTING_LIMIT, Object(members), rest)
    decreases members, 2
  {
    hide Terminated, ParseValue, ParseMembers, PrintMembers, Numeric, SkipWs, Indent;
    var close := Indent(format, d) + ("}" + rest);
    CloseText(format, d, rest);
    var s := PrintMembers(members, format, d + 1) + close;
    PrintMembersCString(members, format, d + 1);
    TerminatedConcat(PrintMembers(members, format, d + 1), close);
    SkipOne('\n', s);
    var u := if format then ['\n'] + s else s;
    ObjectText(format, PrintMembers(members, format, d + 1), Indent(format, d), rest);
    ParseValueObject(u, depth);
    if members == [] {
      NoMembers(members, format, d + 1, close);
    } else {
      MembersStart(members, format, d + 1, close);
      if depth < NESTING_LIMIT {
        ParseMembersSkip(u, s, depth + 1);
        ParsePrintMembers(members, format, d + 1, depth + 1, close, rest);
      }
    }
  }

  lemma ObjectText(format: bool, p: string, indent: string, rest: string)
    ensures var s := p + (indent + ("}" + rest));
            Open(format) + p + indent + "}" + rest == "{" + if format then ['\n'] + s else s
  {
    Assoc(Open(format) + p + indent, "}", rest);
    Assoc(Open(format) + p, indent, "}" + rest);
    Assoc(Open(format), p, indent + ("}" + rest));
    Assoc("{", ['\n'], p + (indent + ("}" + rest)));
  }

  lemma NoMembers(members: seq<Member>, format: bool, d: nat, close: string)
    requires members == []
    ensures PrintMembers(members, format, d) + close == close
  {}

  lemma CloseFirst(format: bool, d: nat, rest: string)
    ensures !Numeric((Indent(format, d) + ("}" + rest))[0])
  {
    if Indent(format, d) == "" {
      assert Indent(format, d) + ("}" + rest) == "}" + rest;
    }
  }

  /** The end of a printed object. */
  lemma CloseText(format: bool, d: nat, rest: string)
    requires Terminated(rest)
    ensures var close := Indent(format, d) + ("}" + rest);
            Terminated(close) && SkipWs(close) == "}" + rest && !Numeric(close[0]) && ("}" + rest)[1..] == rest
  {
    hide Terminated, SkipWs, Numeric;
    TerminatedConcat("}", rest);
    SkipIndent(format, d, "}" + rest);
    SkipNothing("}" + rest);
    CloseFirst(format, d, rest);
  }

  lemma Assoc(a: string, b: string, c: string)
    ensures (a + b) + c == a + (b + c)
  {}

  lemma Assoc7(a: string, b: string, c: string, d: string, e: string, f: string, g: string)
    ensures a + b + c + d + e + f + g == a + (b + (c + (d + (e + (f + g)))))
  {
    Assoc(a + b + c + d + e, f, g);
    Assoc(a + b + c + d, e, f + g);
    Assoc(a + b + c, d, e + (f + g));
    Assoc(a + b, c, d + (e + (f + g)));
    Assoc(a, b, c + (d + (e + (f + g))));
  }

  lemma MembersConcat(members: seq<Member>, format: bool, d: nat, close: string)
    requires members != []
    ensures PrintMembers(members, format, d) + close ==
      Indent(format, d) + (Quote(members[0].key) + (Colon(format) + (Print(members[0].value, format, d)
      + (LineEnd(format, |members| == 1) + (PrintMembers(members[1..], format, d) + close)))))
  {
    hide Print, Quote, Indent, Colon, LineEnd;
    Assoc7(Indent(format, d), Quote(members[0].key), Colon(format), Print(members[0].value, format, d),
           LineEnd(format, |members| == 1), PrintMembers(members[1..], format, d), close);
  }

  lemma QuoteFirst(s: string, rest: string)
    ensures (Quote(s) + rest)[0] == '\"'
  {}

  /** The first member starts with a quote. */
  lemma MembersStart(members: seq<Member>, format: bool, d: nat, close: string)
    requires members != [] && Terminated(PrintMembers(members, format, d) + close)
    ensures SkipWs(PrintMembers(members, format, d) + close)[0] == '\"'
  {
    var text := Colon(format) + (Print(members[0].value, format, d)
              + (LineEnd(format, |members| == 1) + (PrintMembers(members[1..], format, d) + close)));
    var head := Quote(members[0].key) + text;
    MembersConcat(members, format, d, close);
    QuoteFirst(members[0].key, text);
    hide Print, Quote, Indent, Colon, LineEnd, PrintMembers;
    SuffixTerminated(Indent(format, d) + head, |Indent(format, d)|);
    assert (Indent(format, d) + head)[|Indent(format, d)|..] == head;
    SkipIndent(format, d, head);
    SkipNothing(head);
  }

  lemma ParseMembersHead(s: string, key: string, colon: string, depth: nat)
    requires Terminated(s) && Terminated(colon) && colon[0] == ':'
    requires ParseString(SkipWs(s)) == Ok(key, colon)
    ensures Terminated(colon[1..])
    ensures ParseMembers(s, depth) == MemberValue(key, ParseValue(SkipWs(colon[1..]), depth), depth)
  {
    hide ParseValue, ParseString, ParseMembers, SkipWs;
    SkipNothing(colon);
    MembersStep(s, depth);
  }

  lemma ColonText(format: bool, text: string)
    requires Terminated(text) && text[0] > ' '
    ensures var colon := Colon(format) + text;
            Terminated(colon) && colon[0] == ':' && Terminated(colon[1..]) && SkipWs(colon[1..]) == text
  {
    TerminatedConcat(Colon(format), text);
    SkipNothing(text);
    SkipOne('\t', text);
    hide SkipWs, Terminated;
    assert (Colon(format) + text)[1..] == if format then ['\t'] + text else text;
  }

  /** What follows the value of a member. */
  function MemberEnd(format: bool, last: bool, next: string): string {
    LineEnd(format, last) + next
  }

  lemma MemberEndSkip(format: bool, last: bool, next: string)
    requires Terminated(next) && (format || !last || !Numeric(next[0]))
    ensures var more := MemberEnd(format, last, next);
            && more != "" && After(more)
            && (last ==> SkipWs(more) == SkipWs(next))
            && (!last ==> SkipWs(more) == more && more[0] == ',' && Terminated(more[1..]) && SkipWs(more[1..]) == SkipWs(next))
  {
    var more := MemberEnd(format, last, next);
    TerminatedConcat(LineEnd(format, last), next);
    SkipOne('\n', next);
    if last {
      assert more == if format then ['\n'] + next else next;
    } else {
      assert more[1..] == if format then ['\n'] + next else next;
      SkipNothing(more);
    }
  }

  /** The key of the first member is read, and then its value. */
  lemma MembersHead(members: seq<Member>, format: bool, d: nat, depth: nat, close: string, more: string)
    requires members != [] && CString(members[0].key)
    requires more == MemberEnd(format, |members| == 1, PrintMembers(members[1..], format, d) + close)
    requires Terminated(Print(members[0].value, format, d) + more) && (Print(members[0].value, format, d) + more)[0] > ' '
    ensures var s := PrintMembers(members, format, d) + close;
            && Terminated(s)
            && ParseMembers(s, depth) == MemberValue(members[0].key, ParseValue(Print(members[0].value, format, d) + more, depth), depth)
  {
    hide Terminated, ParseValue, ParseString, ParseMembers, Print, SkipWs, Quote, CString, Colon, LineEnd, PrintMembers, Indent, MemberValue;
    var key := members[0].key;
    var text := Print(members[0].value, format, d) + more;
    var colon := Colon(format) + text;
    var head := Quote(key) + colon;
    MembersConcat(members, format, d, close);
    ColonText(format, text);
    ParseQuote(key, colon);
    QuoteFirst(key, colon);
    SkipIndent(format, d, head);
    SkipNothing(head);
    ParseMembersHead(PrintMembers(members, format, d) + close, key, colon, depth);
  }

  lemma {:induction false} ParsePrintMembers(members: seq<Member>, format: bool, d: nat, depth: nat, close: string, rest: string)
    requires members != [] && forall i | 0 <= i < |members| :: CString(members[i].key) && Printable(members[i].value)
    requires Terminated(close) && SkipWs(close) == "}" + rest && !Numeric(close[0]) && depth <= NESTING_LIMIT
    ensures var s := PrintMembers(members, format, d) + close;
            Terminated(s) && ParseMembers(s, depth) == Expect(depth + NestingMembers(members) <= NESTING_LIMIT, members, rest)
    decreases members, 1
  {
    hide Terminated, ParseValue, ParseMembers, Print, SkipWs, CString, Numeric, PrintMembers, MemberEnd;
    var value, last := members[0].value, |members| == 1;
    var next := PrintMembers(members[1..], format, d) + close;
    var more := MemberEnd(format, last, next);
    PrintMembersCString(members[1..], format, d);
    TerminatedConcat(PrintMembers(members[1..], format, d), close);
    if last {
      NoMembers(members[1..], format, d, close);
    }
    MemberEndSkip(format, last, next);
    ParsePrint(value, format, d, depth, more);
    PrintFirst(value, format, d);
    MembersHead(members, format, d, depth, close, more);
    if last {
      assert members == [members[0]] && NestingMembers(members[1..]) == 0;
      assert ("}" + rest)[1..] == rest;
    } else {
      ParseMembersSkip(more[1..], next, depth);
      ParsePrintMembers(members[1..], format, d, depth, close, rest);
      assert members == [members[0]] + members[1..];
    }
  }

  /** A value survives printing, formatted or not, and parsing, with or without the check that nothing
      follows, exactly when its arrays and objects are nested at most 1000 deep. Deeper ones are refused. */
  lemma RoundTrip(v: Json, format: bool, requireEnd: bool)
    requires Printable(v)
    ensures CString(Print(v, format, 0))
    ensures Parse(Print(v, format, 0), requireEnd) == Expect(Nesting(v) <= 1000, v, [NUL])
  {
    PrintCString(v, format, 0);
    PrintFirst(v, format, 0);
    ParsePrint(v, format, 0, 0, [NUL]);
    SkipNothing(Print(v, format, 0) + [NUL]);
    hide Print, ParseValue;
  }
}
