/** What a printed text looks like, byte by byte: escapes, digits, separators and indentation. */
module JsonLayout {
  import opened Options
  import opened JsonSpec
  import opened JsonRoundTrip
  import opened JsonGrammar
  import opened JsonReading

  // ---------- Strings and numbers ----------

  /** How each byte of a string is written: seven bytes with a letter, other control bytes with lower-case digits. */
  lemma EscapeTable(c: char)
    ensures c == '\"' ==> EscapeChar(c) == "\\\""
    ensures c == '\\' ==> EscapeChar(c) == "\\\\"
    ensures c as int == 8 ==> EscapeChar(c) == "\\b"
    ensures c as int == 12 ==> EscapeChar(c) == "\\f"
    ensures c as int == 10 ==> EscapeChar(c) == "\\n"
    ensures c as int == 13 ==> EscapeChar(c) == "\\r"
    ensures c as int == 9 ==> EscapeChar(c) == "\\t"
    ensures c as int >= 32 && c != '\"' && c != '\\' ==> EscapeChar(c) == [c]
    ensures c as int < 32 && !(c as int in {8, 9, 10, 12, 13}) ==>
            var e := EscapeChar(c);
            && |e| == 6 && e[..4] == "\\u00" && HexOf(e[4]).Some? && HexOf(e[5]).Some?
            && c as int == 16 * HexOf(e[4]).value + HexOf(e[5]).value
            && !('A' <= e[4] <= 'F') && !('A' <= e[5] <= 'F')
  {
    if c as int < 32 {
      LowerDigit(c as nat / 16);
      LowerDigit(c as nat % 16);
    }
    hide HexOf, HexDigit;
  }

  lemma LowerDigit(n: nat)
    requires n < 16
    ensures HexOf(HexDigit(n)) == Some(n) && !('A' <= HexDigit(n) <= 'F')
  {
  }

  lemma {:induction false} EscapeParts(s: string, t: string)
    ensures Escape(s + t) == Escape(s) + Escape(t)
  {
    hide EscapeChar;
    if s == "" {
      assert s + t == t;
    } else {
      assert (s + t)[1..] == s[1..] + t;
      EscapeParts(s[1..], t);
    }
  }

  /** A string is written byte by byte between quotes. */
  lemma QuoteIs(s: string, c: char)
    ensures Quote("") == "\"\"" && Quote(s + [c]) == "\"" + Escape(s) + EscapeChar(c) + "\""
  {
    hide EscapeChar;
    EscapeParts(s, [c]);
    assert Escape([c]) == EscapeChar(c) + Escape([c][1..]);
  }

  lemma {:induction false} NoLeadingZero(n: nat)
    ensures Digits(n)[0] == '0' ==> n == 0
    ensures n < 10 ==> |Digits(n)| == 1
  {
    if n >= 10 {
      NoLeadingZero(n / 10);
    }
  }

  lemma AreDecimal(d: string)
    requires forall i | 0 <= i < |d| :: Digit(d[i])
    ensures DecimalDigits(d)
  {
    forall i | 0 <= i < |d|
      ensures DecimalOf(d[i]).Some?
    {
      DigitsAgree(d[i]);
    }
  }

  /** A number is written with its decimal digits, without a leading zero, behind a minus if it is negative. */
  lemma NumberIs(m: int, e: int, format: bool, depth: nat)
    ensures var t := Print(Number(m, e), format, depth);
            var d := if m < 0 then t[1..] else t;
            && (m < 0 ==> t[0] == '-') && d != "" && DecimalDigits(d) && Decimal(d) == (if m < 0 then -m else m)
            && (d[0] == '0' ==> m == 0 && d == "0")
  {
    var n := if m < 0 then -m else m;
    DigitsAreDigits(n);
    AreDecimal(Digits(n));
    DigitsValue(n);
    DecimalIsNatValue(Digits(n));
    NoLeadingZero(n);
    hide Digits, NatValue, Decimal, DecimalDigits;
    assert m < 0 ==> ("-" + Digits(n))[1..] == Digits(n);
  }

  lemma WordsAre(s: string, format: bool, depth: nat)
    ensures Print(Null, format, depth) == "null" && Print(False, format, depth) == "false" && Print(True, format, depth) == "true"
    ensures Print(String(s), format, depth) == "\"" + Escape(s) + "\""
  {
  }

  // ---------- Arrays and objects ----------

  /** The texts with a separator between each two. */
  function Join(ts: seq<string>, separator: string): string {
    if ts == [] then "" else if |ts| == 1 then ts[0] else ts[0] + separator + Join(ts[1..], separator)
  }

  function Texts(items: seq<Json>, format: bool, depth: nat): (ts: seq<string>)
    ensures |ts| == |items| && forall i | 0 <= i < |items| :: ts[i] == Print(items[i], format, depth)
  {
    if items == [] then [] else [Print(items[0], format, depth)] + Texts(items[1..], format, depth)
  }

  lemma {:induction false} ItemsAreJoined(items: seq<Json>, format: bool, depth: nat)
    ensures PrintItems(items, format, depth) == Join(Texts(items, format, depth), if format then ", " else ",")
  {
    hide Print;
    if items != [] {
      ItemsAreJoined(items[1..], format, depth);
      var ts := Texts(items, format, depth);
      assert ts[1..] == Texts(items[1..], format, depth);
    }
  }

  /** An array is its items between brackets, with a comma, and a blank if formatted, between each two. */
  lemma ArrayIs(items: seq<Json>, format: bool, depth: nat)
    ensures Print(Array(items), format, depth) == "[" + Join(Texts(items, format, depth + 1), if format then ", " else ",") + "]"
  {
    hide Join, Texts, PrintItems;
    ItemsAreJoined(items, format, depth + 1);
  }

  /** n tabs. */
  predicate AreTabs(t: string, n: nat) {
    |t| == n && forall i | 0 <= i < n :: t[i] as int == 9
  }

  /** A member: name, colon and value; formatted with tabs in front and one behind the colon. */
  function Line(m: Member, format: bool, depth: nat, tabs: string): string {
    (if format then tabs else "") + Quote(m.key) + (if format then ":\t" else ":") + Print(m.value, format, depth)
  }

  function MemberLines(members: seq<Member>, format: bool, depth: nat, tabs: string): (ls: seq<string>)
    ensures |ls| == |members| && forall i | 0 <= i < |members| :: ls[i] == Line(members[i], format, depth, tabs)
  {
    if members == [] then [] else [Line(members[0], format, depth, tabs)] + MemberLines(members[1..], format, depth, tabs)
  }

  lemma TabsAre(t: string, n: nat)
    requires AreTabs(t, n)
    ensures Tabs(n) == t
  {
  }

  lemma {:induction false} MembersAreJoined(members: seq<Member>, format: bool, depth: nat, tabs: string)
    requires AreTabs(tabs, depth)
    ensures PrintMembers(members, format, depth) ==
            Join(MemberLines(members, format, depth, tabs), if format then ",\n" else ",") + (if format && members != [] then "\n" else "")
  {
    hide Print, Quote;
    if members != [] {
      TabsAre(tabs, depth);
      MembersAreJoined(members[1..], format, depth, tabs);
      var ls := MemberLines(members, format, depth, tabs);
      assert ls[1..] == MemberLines(members[1..], format, depth, tabs);
      LineEnds(Line(members[0], format, depth, tabs), ls[1..], format, |members| == 1);
    }
  }

  lemma LineEnds(line: string, ls: seq<string>, format: bool, last: bool)
    requires last <==> ls == []
    ensures var separator, end := if format then ",\n" else ",", if format then "\n" else "";
            line + LineEnd(format, last) + (Join(ls, separator) + if last then "" else end) == Join([line] + ls, separator) + end
  {
    assert ([line] + ls)[1..] == ls;
    var separator, end := if format then ",\n" else ",", if format then "\n" else "";
    if last {
      assert LineEnd(format, last) == end && Join(ls, separator) == "";
    } else {
      assert LineEnd(format, last) == separator;
      assert line + separator + (Join(ls, separator) + end) == line + separator + Join(ls, separator) + end;
    }
  }

  /** An object is its members between braces; formatted, each in a line of its own, indented by one tab for each object
      and array around it. */
  lemma ObjectIs(members: seq<Member>, format: bool, depth: nat, inner: string, outer: string)
    requires AreTabs(inner, depth + 1) && AreTabs(outer, depth)
    ensures Print(Object(members), format, depth) ==
            (if format then "{\n" else "{")
            + (Join(MemberLines(members, format, depth + 1, inner), if format then ",\n" else ",") + (if format && members != [] then "\n" else ""))
            + (if format then outer else "") + "}"
  {
    hide Join, MemberLines, PrintMembers;
    MembersAreJoined(members, format, depth + 1, inner);
    TabsAre(outer, depth);
  }
}
