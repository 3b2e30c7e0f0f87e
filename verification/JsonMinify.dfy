/** cJSON_Minify: whitespace and comments go, in place. Minifying a formatted print gives the unformatted one. */
module JsonMinify {
  import opened Options
  import opened JsonSpec
  import opened JsonRoundTrip
  import opened JsonLiteral
  import opened JsonString

  // ---------- What is left of a text ----------

  predicate Blank(c: char) {
    c == ' ' || c == '\t' || c == '\r' || c == '\n'
  }

  /** Length of the line without its line feed. */
  function LineLength(s: string): (n: nat)
    ensures n <= |s|
  {
    if s == "" || s[0] == '\n' then 0 else 1 + LineLength(s[1..])
  }

  /** Where the first star and slash are. The star that opens the comment may be the one that closes it. */
  function CommentEnd(s: string): (r: Option<nat>)
    ensures r.Some? ==> r.value + 2 <= |s|
  {
    if |s| < 2 then None
    else if s[0] == '*' && s[1] == '/' then Some(0)
    else Shift(1, CommentEnd(s[1..]))
  }

  /** The minified text; none if a comment or a string is not closed. */
  function Minify(s: string): Option<string>
    decreases |s|
  {
    if s == "" then Some("")
    else if Blank(s[0]) then Minify(s[1..])
    else if s[0] == '/' && |s| > 1 && s[1] == '/' then
      LineLengthPositive(s);
      Minify(s[LineLength(s)..])
    else if s[0] == '/' && |s| > 1 && s[1] == '*' then
      match CommentEnd(s)
      case None => None
      case Some(n) => Minify(s[n + 2..])
    else if s[0] == '\"' then
      match ScanString(s[1..])
      case None => None
      case Some(n) => Prepend(s[..n + 2], Minify(s[n + 2..]))
    else Prepend([s[0]], Minify(s[1..]))
  }

  lemma LineLengthPositive(s: string)
    requires s != "" && s[0] != '\n'
    ensures LineLength(s) > 0
  {
  }

  // ---------- Printed texts ----------

  /** Bytes that are copied one by one wherever they stand outside a string. */
  predicate Plain(s: string) {
    forall i | 0 <= i < |s| :: !Blank(s[i]) && s[i] != '/' && s[i] != '\"'
  }

  predicate Blanks(s: string) {
    forall i | 0 <= i < |s| :: Blank(s[i])
  }

  lemma {:induction false} MinifyPlain(s: string, rest: string)
    requires Plain(s)
    ensures Minify(s + rest) == Prepend(s, Minify(rest))
  {
    if s == "" {
      assert s + rest == rest;
      PrependNothing(Minify(rest));
    } else {
      assert (s + rest)[1..] == s[1..] + rest;
      MinifyPlain(s[1..], rest);
      PrependTwice([s[0]], s[1..], Minify(rest));
      assert [s[0]] + s[1..] == s;
    }
  }

  lemma {:induction false} MinifyBlanks(s: string, rest: string)
    requires Blanks(s)
    ensures Minify(s + rest) == Minify(rest)
  {
    if s == "" {
      assert s + rest == rest;
    } else {
      assert (s + rest)[1..] == s[1..] + rest;
      MinifyBlanks(s[1..], rest);
    }
  }

  lemma MinifyQuote(s: string, rest: string)
    requires CString(s)
    ensures Minify(Quote(s) + rest) == Prepend(Quote(s), Minify(rest))
  {
    hide Escape, ScanString;
    EscapeDecodes(s, rest);
    var t := Quote(s) + rest;
    var n := |Escape(s)|;
    assert t[1..] == Escape(s) + "\"" + rest;
    assert t[..n + 2] == Quote(s) && t[n + 2..] == rest;
  }

  lemma PrintIntPlain(n: int)
    ensures Plain(PrintInt(n))
  {
    DigitsAreDigits(if n < 0 then -n else n);
  }

  /** A text is removed up to what is left of it. */
  ghost predicate Becomes(s: string, t: string) {
    forall rest :: Minify(s + rest) == Prepend(t, Minify(rest))
  }

  lemma BecomesAt(a: string, a': string, rest: string)
    requires Becomes(a, a')
    ensures Minify(a + rest) == Prepend(a', Minify(rest))
  {
    hide Minify;
  }

  lemma BecomesConcat(a: string, a': string, b: string, b': string)
    requires Becomes(a, a') && Becomes(b, b')
    ensures Becomes(a + b, a' + b')
  {
    hide Minify;
    forall rest
      ensures Minify(a + b + rest) == Prepend(a' + b', Minify(rest))
    {
      hide Becomes, Minify;
      assert a + b + rest == a + (b + rest);
      BecomesAt(a, a', b + rest);
      BecomesAt(b, b', rest);
      PrependTwice(a', b', Minify(rest));
    }
  }

  lemma PlainBecomes(s: string)
    requires Plain(s)
    ensures Becomes(s, s)
  {
    forall rest ensures Minify(s + rest) == Prepend(s, Minify(rest)) {
      MinifyPlain(s, rest);
    }
  }

  lemma BlanksBecome(s: string)
    requires Blanks(s)
    ensures Becomes(s, "")
  {
    forall rest ensures Minify(s + rest) == Prepend("", Minify(rest)) {
      MinifyBlanks(s, rest);
      PrependNothing(Minify(rest));
    }
  }

  lemma QuoteBecomes(s: string)
    requires CString(s)
    ensures Becomes(Quote(s), Quote(s))
  {
    forall rest ensures Minify(Quote(s) + rest) == Prepend(Quote(s), Minify(rest)) {
      MinifyQuote(s, rest);
    }
  }

  /** Plain text followed by blanks. */
  lemma MarkBecomes(mark: string, blanks: string)
    requires Plain(mark) && Blanks(blanks)
    ensures Becomes(mark + blanks, mark)
  {
    PlainBecomes(mark);
    BlanksBecome(blanks);
    BecomesConcat(mark, mark, blanks, "");
    assert mark + "" == mark;
  }

  lemma {:induction false} PrintBecomes(v: Json, format: bool, depth: nat, d: nat)
    requires Printable(v)
    ensures Becomes(Print(v, format, depth), Print(v, false, d))
    decreases v, 1
  {
    hide Becomes, Quote, PrintInt, PrintItems, PrintMembers, Open, Indent;
    match v
    case Null => PlainBecomes("null");
    case False => PlainBecomes("false");
    case True => PlainBecomes("true");
    case Number(m, _) =>
      PrintIntPlain(m);
      PlainBecomes(PrintInt(m));
    case String(s) => QuoteBecomes(s);
    case Array(items) =>
      ItemsBecome(items, format, depth + 1, d + 1);
      PlainBecomes("[");
      PlainBecomes("]");
      BecomesConcat("[", "[", PrintItems(items, format, depth + 1), PrintItems(items, false, d + 1));
      BecomesConcat("[" + PrintItems(items, format, depth + 1), "[" + PrintItems(items, false, d + 1), "]", "]");
    case Object(members) =>
      MembersBecome(members, format, depth + 1, d + 1);
      var a, a' := Open(format) + PrintMembers(members, format, depth + 1), "{" + PrintMembers(members, false, d + 1);
      OpenBecomes(format);
      BecomesConcat(Open(format), "{", PrintMembers(members, format, depth + 1), PrintMembers(members, false, d + 1));
      IndentBecomes(format, depth);
      BecomesConcat(a, a', Indent(format, depth), "");
      PlainBecomes("}");
      BecomesConcat(a + Indent(format, depth), a' + "", "}", "}");
      UnformattedObject(members, d);
  }

  lemma UnformattedObject(members: seq<Member>, d: nat)
    ensures Print(Object(members), false, d) == "{" + PrintMembers(members, false, d + 1) + "" + "}"
  {
    hide PrintMembers;
  }

  lemma OpenBecomes(format: bool)
    ensures Becomes(Open(format), "{")
  {
    hide Becomes;
    MarkBecomes("{", "\n");
    PlainBecomes("{");
    assert "{" + "\n" == "{\n";
  }

  lemma IndentBecomes(format: bool, depth: nat)
    ensures Becomes(Indent(format, depth), "")
  {
    hide Becomes;
    BlanksBecome(Indent(format, depth));
  }

  lemma ColonBecomes(format: bool)
    ensures Becomes(Colon(format), ":")
  {
    hide Becomes;
    MarkBecomes(":", "\t");
    PlainBecomes(":");
    assert ":" + "\t" == ":\t";
  }

  lemma CommaBecomes(format: bool, last: bool)
    ensures Becomes(Comma(format, last), Comma(false, last))
  {
    hide Becomes;
    MarkBecomes(",", " ");
    PlainBecomes(",");
    PlainBecomes("");
    assert "," + " " == ", ";
  }

  lemma LineEndBecomes(format: bool, last: bool)
    ensures Becomes(LineEnd(format, last), LineEnd(false, last))
  {
    hide Becomes;
    var comma, feed := if last then "" else ",", if format then "\n" else "";
    MarkBecomes(comma, feed);
    assert LineEnd(false, last) == comma + "" == comma;
  }

  lemma {:induction false} ItemsBecome(items: seq<Json>, format: bool, depth: nat, d: nat)
    requires forall i | 0 <= i < |items| :: Printable(items[i])
    ensures Becomes(PrintItems(items, format, depth), PrintItems(items, false, d))
    decreases items, 2
  {
    hide Becomes, Print, Comma;
    if items == [] {
      PlainBecomes("");
    } else {
      PrintBecomes(items[0], format, depth, d);
      var last := |items| == 1;
      CommaBecomes(format, last);
      BecomesConcat(Print(items[0], format, depth), Print(items[0], false, d), Comma(format, last), Comma(false, last));
      ItemsBecome(items[1..], format, depth, d);
      BecomesConcat(Print(items[0], format, depth) + Comma(format, last), Print(items[0], false, d) + Comma(false, last),
        PrintItems(items[1..], format, depth), PrintItems(items[1..], false, d));
    }
  }

  lemma {:induction false} MembersBecome(members: seq<Member>, format: bool, depth: nat, d: nat)
    requires forall i | 0 <= i < |members| :: CString(members[i].key) && Printable(members[i].value)
    ensures Becomes(PrintMembers(members, format, depth), PrintMembers(members, false, d))
    decreases members, 2
  {
    hide Becomes, Print, LineEnd, Colon, Indent, Quote;
    if members == [] {
      PlainBecomes("");
    } else {
      MemberBecomes(members[0], format, depth, d, |members| == 1);
      MembersBecome(members[1..], format, depth, d);
      BecomesConcat(MemberText(members[0], format, depth, |members| == 1), MemberText(members[0], false, d, |members| == 1),
        PrintMembers(members[1..], format, depth), PrintMembers(members[1..], false, d));
    }
  }

  lemma {:induction false} MemberBecomes(m: Member, format: bool, depth: nat, d: nat, last: bool)
    requires CString(m.key) && Printable(m.value)
    ensures Becomes(MemberText(m, format, depth, last), MemberText(m, false, d, last))
    decreases m, 2
  {
    hide Becomes, Print, LineEnd, Colon, Indent, Quote;
    var k := Quote(m.key);
    IndentBecomes(format, depth);
    QuoteBecomes(m.key);
    BecomesConcat(Indent(format, depth), "", k, k);
    ColonBecomes(format);
    BecomesConcat(Indent(format, depth) + k, "" + k, Colon(format), ":");
    PrintBecomes(m.value, format, depth, d);
    BecomesConcat(Indent(format, depth) + k + Colon(format), "" + k + ":", Print(m.value, format, depth), Print(m.value, false, d));
    LineEndBecomes(format, last);
    BecomesConcat(Indent(format, depth) + k + Colon(format) + Print(m.value, format, depth), "" + k + ":" + Print(m.value, false, d),
      LineEnd(format, last), LineEnd(false, last));
    UnformattedMarks(d);
  }

  lemma UnformattedMarks(d: nat)
    ensures Indent(false, d) == "" && Colon(false) == ":"
  {
  }

  /** Minifying any print of a value, formatted or not, gives its unformatted print. */
  lemma MinifyPrint(v: Json, format: bool)
    requires Printable(v)
    ensures Minify(Print(v, format, 0)) == Some(Print(v, false, 0))
  {
    hide Print;
    PrintBecomes(v, format, 0, 0);
    assert Print(v, format, 0) + "" == Print(v, format, 0);
    assert Print(v, false, 0) + "" == Print(v, false, 0);
  }

  // ---------- Minifying twice ----------

  /** Would a comment begin if this followed a slash? */
  predicate OpensComment(s: string) {
    s != "" && (s[0] == '/' || s[0] == '*')
  }

  /** Is a slash that is kept never followed by a slash or star that is kept too, once blanks, comments and nothing
      else lie between them? The flag says that the byte kept last, outside a string, is a slash. */
  predicate Stable(s: string, slash: bool)
    decreases |s|
  {
    if s == "" then true
    else if Blank(s[0]) then Stable(s[1..], slash)
    else if s[0] == '/' && |s| > 1 && s[1] == '/' then
      LineLengthPositive(s);
      Stable(s[LineLength(s)..], slash)
    else if s[0] == '/' && |s| > 1 && s[1] == '*' then
      match CommentEnd(s)
      case None => true
      case Some(n) => Stable(s[n + 2..], slash)
    else if s[0] == '\"' then
      match ScanString(s[1..])
      case None => true
      case Some(n) => Stable(s[n + 2..], false)
    else if slash && OpensComment(s) then false
    else Stable(s[1..], s[0] == '/')
  }

  lemma {:induction false} MinifyShorter(s: string)
    ensures Minify(s).Some? ==> |Minify(s).value| <= |s|
    decreases |s|
  {
    if s != "" && Minify(s).Some? {
      hide Minify;
      MinifyUnfold(s);
      var c, d := s[0], if |s| > 1 then s[1] else NUL;
      if Blank(c) {
        MinifyShorter(s[1..]);
      } else if c == '/' && d == '/' {
        MinifyShorter(s[LineLength(s)..]);
      } else if c == '/' && d == '*' {
        MinifyShorter(s[CommentEnd(s).value + 2..]);
      } else if c == '\"' {
        MinifyShorter(s[ScanString(s[1..]).value + 2..]);
      } else {
        MinifyShorter(s[1..]);
      }
    }
  }

  /** A literal is found from its own bytes, whatever follows it. */
  lemma {:induction false} ScanPrefix(s: string, t: string)
    requires ScanString(s).Some?
    ensures ScanString(s[..ScanString(s).value + 1] + t) == ScanString(s)
    decreases |s|
  {
    hide ScanString, Escapes;
    ScanUnfold(s);
    var n := ScanString(s).value;
    var u := s[..n + 1] + t;
    if s[0] == '\"' {
      ScanEnd(u);
    } else {
      var k := if s[0] == '\\' then 2 else 1;
      ScanPrefix(s[k..], t);
      PrefixTail(s, n + 1, t, k);
      ScanStep(u, 0);
      assert u[0..] == u;
    }
  }

  lemma PrefixTail(s: string, n: nat, t: string, k: nat)
    requires k <= n <= |s|
    ensures (s[..n] + t)[k..] == s[k..][..n - k] + t
  {
  }

  /** A comment at the front is lost. */
  lemma CommentLost(m: string)
    requires |m| > 1 && m[0] == '/' && OpensComment(m[1..])
    ensures Minify(m) != Some(m)
  {
    if Minify(m).Some? {
      hide Minify;
      MinifyUnfold(m);
      if m[1] == '/' {
        MinifyShorter(m[LineLength(m)..]);
      } else {
        MinifyShorter(m[CommentEnd(m).value + 2..]);
      }
    }
  }

  lemma PrependSame(a: string, r: Option<string>, b: string)
    ensures Prepend(a, r) == Some(a + b) <==> r == Some(b)
  {
    if r.Some? {
      assert (a + r.value)[|a|..] == r.value && (a + b)[|a|..] == b;
    }
  }

  /** A byte that is kept. */
  lemma KeptByte(c: char, m: string)
    requires !Blank(c) && c != '\"' && !(c == '/' && OpensComment(m))
    ensures Minify([c] + m) == Some([c] + m) <==> Minify(m) == Some(m)
  {
    assert ([c] + m)[1..] == m;
    PrependSame([c], Minify(m), m);
  }

  lemma LiteralSlice(s: string, n: nat, m: string)
    requires n + 2 <= |s|
    ensures var u := s[..n + 2] + m;
            u[1..] == s[1..][..n + 1] + m && u[..n + 2] == s[..n + 2] && u[n + 2..] == m
  {
  }

  lemma KeptLiteral(s: string, m: string)
    requires s != "" && s[0] == '\"' && ScanString(s[1..]).Some?
    ensures var l := s[..ScanString(s[1..]).value + 2];
            l != "" && l[0] == '\"' && (Minify(l + m) == Some(l + m) <==> Minify(m) == Some(m))
  {
    hide ScanString, Minify;
    var n := ScanString(s[1..]).value;
    var l := s[..n + 2];
    ScanPrefix(s[1..], m);
    LiteralSlice(s, n, m);
    MinifyUnfold(l + m);
    PrependSame(l, Minify(m), m);
  }

  /** A second pass changes nothing exactly if the first one brings no slash in front of a slash or star. */
  lemma {:induction false} MinifyTwice(s: string)
    requires Minify(s).Some?
    ensures var m := Minify(s).value;
            (Minify(m) == Some(m) <==> Stable(s, false)) && (Stable(s, true) <==> Stable(s, false) && !OpensComment(m))
    decreases |s|
  {
    hide Minify;
    if s == "" {
      MinifyEmpty();
    } else {
      MinifyUnfold(s);
      var m := Minify(s).value;
      var c, d := s[0], if |s| > 1 then s[1] else NUL;
      if Blank(c) {
        MinifyTwice(s[1..]);
      } else if c == '/' && d == '/' {
        MinifyTwice(s[LineLength(s)..]);
      } else if c == '/' && d == '*' {
        MinifyTwice(s[CommentEnd(s).value + 2..]);
      } else if c == '\"' {
        var rest := s[ScanString(s[1..]).value + 2..];
        MinifyTwice(rest);
        KeptLiteral(s, Minify(rest).value);
      } else {
        MinifyTwice(s[1..]);
        var m' := Minify(s[1..]).value;
        assert m == [c] + m';
        if c == '/' && OpensComment(m') {
          assert m[1..] == m';
          CommentLost(m);
        } else {
          KeptByte(c, m');
        }
      }
    }
  }

  lemma MinifyEmpty()
    ensures Minify("") == Some("")
  {
  }

  /** An instance: an inner blank goes and a comment appears. */
  lemma MinifyTwiceDiffers()
    ensures Minify("/ /x") == Some("//x") && Minify("//x") == Some("")
  {
    assert "x" + "" == "x" && "/" + "x" == "/x" && "/" + "/x" == "//x";
    assert "x"[1..] == "" && Minify("x") == Some("x");
    assert "/x"[1..] == "x" && Minify("/x") == Some("/x");
    assert " /x"[1..] == "/x" && Minify(" /x") == Some("/x");
    assert "/ /x"[1..] == " /x" && Minify("/ /x") == Some("//x");
    assert LineLength("x") == 1;
    assert LineLength("/x") == 2;
    assert "//x"[1..] == "/x" && LineLength("//x") == 3;
    assert "//x"[3..] == "";
  }

  // ---------- Closed texts ----------

  /** Where a byte stands: outside, behind a slash outside, in a line comment, in a comment, behind a star of a
      comment, in a string, behind a backslash of a string. */
  datatype Mode = Outside | Slash | Line | Block | Star | Str | Hidden

  function NextMode(mode: Mode, c: char): Mode {
    match mode
    case Line => if c == '\n' then Outside else Line
    case Block => if c == '*' then Star else Block
    case Star => if c == '/' then Outside else if c == '*' then Star else Block
    case Str => if c == '\\' then Hidden else if c == '\"' then Outside else Str
    case Hidden => Str
    case _ =>
      if c == '\"' then Str
      else if mode == Slash && c == '/' then Line
      else if mode == Slash && c == '*' then Star
      else if c == '/' then Slash
      else Outside
  }

  /** Where the text ends, byte by byte. */
  function LastMode(s: string, mode: Mode): Mode {
    if s == "" then mode else LastMode(s[1..], NextMode(mode, s[0]))
  }

  predicate ClosedFrom(s: string, mode: Mode) {
    LastMode(s, mode) in {Outside, Slash, Line}
  }

  /** Are all strings and comments closed? */
  predicate Closed(s: string) {
    ClosedFrom(s, Outside)
  }

  lemma {:induction false} LineClosed(s: string)
    ensures ClosedFrom(s, Line) <==> ClosedFrom(s[LineLength(s)..], Outside)
  {
    if s != "" && s[0] != '\n' {
      LineClosed(s[1..]);
      assert s[LineLength(s)..] == s[1..][LineLength(s[1..])..];
    } else {
      assert s[0..] == s;
    }
  }

  lemma ClosedStep(s: string, mode: Mode)
    requires s != ""
    ensures ClosedFrom(s, mode) <==> ClosedFrom(s[1..], NextMode(mode, s[0]))
  {
  }

  lemma ClosedNothing(mode: Mode)
    ensures ClosedFrom("", mode) <==> mode in {Outside, Slash, Line}
  {
  }

  predicate StringThenClosed(s: string) {
    ScanString(s).Some? && ClosedFrom(s[ScanString(s).value + 1..], Outside)
  }

  lemma StringBehind(s: string, n: nat)
    requires n <= |s| && ScanString(s) == Shift(n, ScanString(s[n..]))
    ensures StringThenClosed(s) <==> StringThenClosed(s[n..])
  {
    hide ScanString, ClosedFrom;
    var r := ScanString(s[n..]);
    if r.Some? {
      assert s[n..][r.value + 1..] == s[n + r.value + 1..];
    }
  }

  lemma StringNext(s: string)
    requires s != ""
    ensures s[0] == '\"' ==> (StringThenClosed(s) <==> ClosedFrom(s[1..], Outside))
    ensures s[0] == '\\' && |s| == 1 ==> !StringThenClosed(s)
    ensures s[0] == '\\' && |s| > 1 ==> (StringThenClosed(s) <==> StringThenClosed(s[2..]))
    ensures s[0] != '\"' && s[0] != '\\' ==> (StringThenClosed(s) <==> StringThenClosed(s[1..]))
  {
    hide ScanString, ClosedFrom, Escapes, Shift;
    assert s[0..] == s;
    if s[0] == '\"' {
      ScanEnd(s);
    } else {
      ScanStep(s, 0);
      if s[0] != '\\' {
        StringBehind(s, 1);
      } else if |s| > 1 {
        StringBehind(s, 2);
      }
    }
  }

  /** Inside a string. */
  lemma {:induction false} StringClosed(s: string)
    ensures ClosedFrom(s, Str) <==> StringThenClosed(s)
    decreases |s|
  {
    hide ClosedFrom, StringThenClosed;
    if s == "" {
      ClosedNothing(Str);
      NoString();
    } else {
      StringNext(s);
      ClosedStep(s, Str);
      if s[0] == '\\' {
        if |s| == 1 {
          assert s[1..] == "";
          ClosedNothing(Hidden);
        } else {
          ClosedStep(s[1..], Hidden);
          assert s[1..][1..] == s[2..];
          StringClosed(s[2..]);
        }
      } else if s[0] != '\"' {
        StringClosed(s[1..]);
      }
    }
  }

  lemma NoString()
    ensures !StringThenClosed("") && !CommentThenClosed("") && !CommentThenClosed("*")
  {
  }

  predicate CommentThenClosed(s: string) {
    CommentEnd(s).Some? && ClosedFrom(s[CommentEnd(s).value + 2..], Outside)
  }

  /** A comment ends here, or where the rest does. */
  lemma CommentNext(s: string)
    requires s != ""
    ensures CommentThenClosed(s) <==>
            if |s| > 1 && s[0] == '*' && s[1] == '/' then ClosedFrom(s[2..], Outside) else CommentThenClosed(s[1..])
  {
    hide ClosedFrom;
    assert CommentEnd(s[1..]).Some? ==> s[1..][CommentEnd(s[1..]).value + 2..] == s[CommentEnd(s[1..]).value + 3..];
  }

  /** Inside a comment, and behind a star that may be half of its end. */
  lemma {:induction false} CommentClosed(s: string)
    ensures ClosedFrom(s, Block) <==> CommentThenClosed(s)
    ensures ClosedFrom(s, Star) <==> CommentThenClosed("*" + s)
  {
    hide ClosedFrom, CommentThenClosed;
    var w := "*" + s;
    assert w[1..] == s;
    if s == "" {
      ClosedNothing(Block);
      ClosedNothing(Star);
      NoString();
      assert w == "*";
    } else {
      assert w[2..] == s[1..] && w[1] == s[0];
      CommentClosed(s[1..]);
      ClosedStep(s, Block);
      ClosedStep(s, Star);
      CommentNext(w);
      if s[0] == '*' {
        assert s == "*" + s[1..];
      } else {
        CommentNext(s);
      }
    }
  }

  lemma SlashClosed(s: string)
    requires !OpensComment(s)
    ensures ClosedFrom(s, Slash) <==> ClosedFrom(s, Outside)
  {
    if s == "" {
      ClosedNothing(Slash);
      ClosedNothing(Outside);
    } else {
      ClosedStep(s, Slash);
      ClosedStep(s, Outside);
    }
  }

  /** A text has a minified form exactly if its strings and comments are closed. */
  lemma {:induction false} MinifyClosed(s: string)
    ensures Minify(s).Some? <==> Closed(s)
    decreases |s|
  {
    hide Minify, ClosedFrom, LineLength, CommentEnd, ScanString;
    if s == "" {
      MinifyEmpty();
      ClosedNothing(Outside);
    } else {
      MinifyUnfold(s);
      ClosedStep(s, Outside);
      var c, d := s[0], if |s| > 1 then s[1] else NUL;
      if c == '/' && d == '/' {
        LineComment(s);
        MinifyClosed(s[LineLength(s)..]);
      } else if c == '/' && d == '*' {
        BlockComment(s);
        if CommentEnd(s).Some? {
          MinifyClosed(s[CommentEnd(s).value + 2..]);
        }
      } else if c == '\"' {
        StringClosed(s[1..]);
        var r := ScanString(s[1..]);
        if r.Some? {
          assert s[1..][r.value + 1..] == s[r.value + 2..];
          MinifyClosed(s[r.value + 2..]);
        }
      } else {
        MinifyClosed(s[1..]);
        if c == '/' {
          SlashClosed(s[1..]);
        }
      }
    }
  }

  lemma LineComment(s: string)
    requires |s| > 1 && s[0] == '/' && s[1] == '/'
    ensures ClosedFrom(s, Outside) <==> ClosedFrom(s[LineLength(s)..], Outside)
  {
    hide ClosedFrom;
    ClosedStep(s, Outside);
    ClosedStep(s[1..], Slash);
    var t := s[1..][1..];
    LineClosed(t);
    assert t == s[2..] && LineLength(s[1..]) == 1 + LineLength(t) && LineLength(s) == 1 + LineLength(s[1..]);
    assert t[LineLength(t)..] == s[LineLength(s)..];
  }

  lemma BlockComment(s: string)
    requires |s| > 1 && s[0] == '/' && s[1] == '*'
    ensures ClosedFrom(s, Outside) <==> CommentThenClosed(s)
  {
    hide ClosedFrom, CommentThenClosed;
    ClosedStep(s, Outside);
    ClosedStep(s[1..], Slash);
    var t := s[1..][1..];
    CommentClosed(t);
    assert s[1..] == "*" + t;
    CommentNext(s);
  }

  /** Instances: a comment, a string, and a string whose last byte is a backslash, all left open. */
  lemma OpenTexts()
    ensures !Closed("/*") && !Closed("\"") && !Closed("\"a\\")
  {
    hide ClosedFrom;
    ClosedStep("/*", Outside);
    ClosedStep("*", Slash);
    ClosedNothing(Star);
    ClosedStep("\"", Outside);
    ClosedNothing(Str);
    var t := "\"a\\";
    assert t[1..] == "a\\" && t[1..][1..] == "\\" && t[1..][1..][1..] == "";
    ClosedStep(t, Outside);
    ClosedStep(t[1..], Str);
    ClosedStep(t[1..][1..], Str);
    ClosedNothing(Hidden);
    assert "/*"[1..] == "*" && "*"[1..] == "" && "\""[1..] == "";
  }

  // ---------- In place ----------

  /** block, what the array held at first, starts with the C string s; from p on the array still holds it. */
  ghost predicate Unread(json: array<char>, block: string, s: string, p: nat)
    reads json
  {
    p <= |s| < json.Length == |block| && s == block[..|s|] && block[|s|] == NUL
    && forall k | p <= k < json.Length :: json[k] == block[k]
  }

  lemma Further(json: array<char>, block: string, s: string, p: nat, q: nat)
    requires Unread(json, block, s, p) && p <= q <= |s|
    ensures Unread(json, block, s, q) && |s| < json.Length
  {
  }

  lemma AtNul(json: array<char>, block: string, s: string, p: nat)
    requires CString(s) && Unread(json, block, s, p)
    ensures if json[p] == NUL then s[p..] == "" else p < |s| && json[p] == s[p] && s[p..][0] == s[p]
    ensures p < |s| ==> json[p] == s[p] && p + 1 < json.Length && json[p + 1] == if p + 1 < |s| then s[p + 1] else NUL
  {
    assert p < |s| ==> s[p] in s;
  }

  /** To the end of the line or of the text. */
  method SkipLine(json: array<char>, start: nat, ghost block: string, ghost s: string) returns (p: nat)
    requires CString(s) && Unread(json, block, s, start)
    ensures p == start + LineLength(s[start..])
  {
    p := start;
    while json[p] != NUL && json[p] != '\n'
      invariant start <= p <= |s| && Unread(json, block, s, p)
      invariant LineLength(s[start..]) == p - start + LineLength(s[p..])
      decreases |s| - p
    {
      assert s[p..][1..] == s[p + 1..];
      p := p + 1;
    }
    AtNul(json, block, s, p);
  }

  /** To the star and slash that close the comment, or to the NUL of a text that leaves it open. */
  method SkipComment(json: array<char>, start: nat, ghost block: string, ghost s: string) returns (p: nat)
    requires CString(s) && Unread(json, block, s, start)
    ensures start <= p <= |s| < json.Length
    ensures if json[p] == NUL then CommentEnd(s[start..]) == None else CommentEnd(s[start..]) == Some(p - start)
  {
    p := start;
    assert Shift(0, CommentEnd(s[p..])) == CommentEnd(s[p..]);
    AtNul(json, block, s, p);
    while json[p] != NUL && !(json[p] == '*' && json[p + 1] == '/')
      invariant start <= p <= |s| && Unread(json, block, s, p)
      invariant CommentEnd(s[start..]) == Shift(p - start, CommentEnd(s[p..]))
      invariant json[p] == NUL ==> s[p..] == ""
      invariant json[p] != NUL ==> p < |s| && s[p] == json[p]
      decreases |s| - p
    {
      assert s[p..][1..] == s[p + 1..];
      p := p + 1;
      AtNul(json, block, s, p);
    }
  }

  /** One byte moves down. Writing never passes reading. */
  method CopyByte(json: array<char>, into: nat, p: nat, ghost was: string, ghost first: nat, ghost block: string, ghost s: string)
    requires CString(s) && Unread(json, block, s, p) && into <= p < |s| && first <= p
    requires json[..into] == was + s[first..p]
    modifies json
    ensures json[..into + 1] == was + s[first..p + 1]
    ensures Unread(json, block, s, p + 1)
  {
    AtNul(json, block, s, p);
    Further(json, block, s, p, p + 1);
    assert was + s[first..p] + [s[p]] == was + s[first..p + 1];
    json[into] := json[p];
  }

  /** What lies behind the NUL is as it was. */
  ghost predicate TailKept(json: array<char>, block: string, s: string)
    reads json
  {
    |s| < json.Length == |block| && forall k | |s| < k < json.Length :: json[k] == block[k]
  }

  lemma UnreadTail(json: array<char>, block: string, s: string, p: nat)
    requires Unread(json, block, s, p)
    ensures TailKept(json, block, s)
  {
  }

  /** The NUL is copied like any other byte: from here on the code reads behind the text. */
  method CopyNul(json: array<char>, into: nat, p: nat, ghost block: string, ghost s: string)
    requires CString(s) && Unread(json, block, s, p) && into <= p <= |s| && json[p] == NUL
    modifies json
    ensures TailKept(json, block, s)
  {
    json[into] := json[p];
  }

  /** A string literal, from its opening to its closing quote. Inside is false if there is none: then the cursor has
      passed the NUL. */
  method CopyLiteral(json: array<char>, start: nat, at: nat, ghost block: string, ghost s: string)
    returns (inside: bool, into: nat, p: nat)
    requires CString(s) && Unread(json, block, s, start) && at <= start < |s| && s[start] == '\"'
    modifies json
    ensures inside <==> ScanString(s[start + 1..]).Some?
    ensures inside ==> (
      p == start + ScanString(s[start + 1..]).value + 2 <= |s| < json.Length && into == at + (p - start)
      && json[..into] == old(json[..at]) + s[start..p] && Unread(json, block, s, p))
    ensures !inside ==> TailKept(json, block, s)
  {
    hide ScanString, Unread, TailKept;
    Further(json, block, s, start, start);
    ghost var was := json[..at];
    assert was + s[start..start] == was;
    CopyByte(json, at, start, was, start, block, s);
    into, p := at + 1, start + 1;
    ghost var r := ScanString(s[p..]);
    while json[p] != NUL && json[p] != '\"'
      invariant start < p <= |s| < json.Length && into == at + (p - start)
      invariant Unread(json, block, s, p)
      invariant json[..into] == was + s[start..p]
      invariant SameEnd(s, start + 1, r, p)
      decreases |s| - p
    {
      AtNul(json, block, s, p);
      inside, into, p := CopyUnit(json, p, into, was, start, block, s, start + 1, r);
      if !inside {
        return;
      }
    }
    AtNul(json, block, s, p);
    ScanStops(s, p);
    if json[p] == NUL {
      CopyNul(json, into, p, block, s);
      return false, into, p + 1;
    }
    CopyByte(json, into, p, was, start, block, s);
    inside, into, p := true, into + 1, p + 1;
  }

  /** The literal that began at first and ends as r says still ends there, seen from p. */
  predicate SameEnd(s: string, first: nat, r: Option<nat>, p: nat)
    requires p <= |s|
  {
    var q := ScanString(s[p..]);
    if r.None? then q == None else q.Some? && first + r.value == p + q.value
  }

  /** A byte inside a literal, or a backslash and the byte it hides. */
  method CopyUnit(json: array<char>, start: nat, at: nat, ghost was: string, ghost first: nat, ghost block: string, ghost s: string,
                  ghost from: nat, ghost r: Option<nat>)
    returns (inside: bool, into: nat, p: nat)
    requires CString(s) && Unread(json, block, s, start) && first <= start && at <= start < |s| && s[start] != '\"'
    requires json[..at] == was + s[first..start] && SameEnd(s, from, r, start)
    modifies json
    ensures inside ==> (
      start < p <= |s| < json.Length && into == at + (p - start) && SameEnd(s, from, r, p)
      && json[..into] == was + s[first..p] && Unread(json, block, s, p))
    ensures !inside ==> r == None && TailKept(json, block, s)
  {
    hide ScanString, Unread, TailKept, SameEnd;
    AtNul(json, block, s, start);
    Further(json, block, s, start, start);
    ScanNext(s, from, r, start);
    into, p := at, start;
    if json[p] == '\\' {
      CopyByte(json, into, p, was, first, block, s);
      into, p := into + 1, p + 1;
      AtNul(json, block, s, p);
      if json[p] == NUL {
        CopyNul(json, into, p, block, s);
        return false, into, p + 1;
      }
    }
    CopyByte(json, into, p, was, first, block, s);
    inside, into, p := true, into + 1, p + 1;
  }

  /** The first pass over a byte, or over a backslash and the byte it hides. */
  lemma ScanNext(s: string, first: nat, r: Option<nat>, p: nat)
    requires p < |s| && s[p] != '\"' && SameEnd(s, first, r, p)
    ensures s[p] == '\\' && p + 1 >= |s| ==> r == None
    ensures var n := if s[p] == '\\' then 2 else 1;
            p + n <= |s| ==> SameEnd(s, first, r, p + n)
  {
    assert s[p..][1..] == s[p + 1..];
    assert p + 1 < |s| ==> s[p..][2..] == s[p + 2..];
  }

  lemma ScanStops(s: string, p: nat)
    requires p <= |s| && (s[p..] != "" ==> s[p] == '\"')
    ensures ScanString(s[p..]) == if s[p..] == "" then None else Some(0)
  {
  }

  /** cJSON_Minify on a C string s. Its cursor stays inside the text, up to its NUL, exactly if all strings and
      comments are closed; then the block ends up with the minified text. Otherwise inside is false, and the model ends
      where the code starts to read what lies behind the NUL. That is never written to before. */
  method MinifyInPlace(json: array<char>, ghost s: string) returns (inside: bool)
    requires CString(s) && |s| < json.Length && json[..|s|] == s && json[|s|] == NUL
    modifies json
    ensures inside <==> Closed(s)
    ensures inside ==> (
              Minify(s).Some?
              && var m := Minify(s).value; |m| <= |s| && json[..|m|] == m && json[|m|] == NUL)
    ensures forall k | |s| < k < json.Length :: json[k] == old(json[k])
  {
    hide Minify, Closed;
    ghost var block := json[..];
    var p, into := 0, 0;
    assert json[..0] == "" && s[0..] == s;
    PrependNothing(Minify(s));
    MinifyClosed(s);
    while json[p] != NUL
      invariant 0 <= into <= p <= |s| < json.Length
      invariant Unread(json, block, s, p)
      invariant Minify(s) == Prepend(json[..into], Minify(s[p..]))
      decreases |s| - p
    {
      AtNul(json, block, s, p);
      inside, into, p := MinifyStep(json, into, p, block, s);
      if !inside {
        return;
      }
    }
    AtNul(json, block, s, p);
    MinifyNothing(json[..into]);
    ghost var m := json[..into];
    json[into] := NUL;
    assert json[..into] == m;
    inside := true;
  }

  lemma MinifyNothing(done: string)
    ensures Prepend(done, Minify("")) == Some(done)
  {
    assert done + "" == done;
  }

  /** One turn of the loop: what is written and what is still to be read always make up the same minified text. */
  method MinifyStep(json: array<char>, at: nat, start: nat, ghost block: string, ghost s: string)
    returns (inside: bool, into: nat, p: nat)
    requires CString(s) && Unread(json, block, s, start) && at <= start <= |s| && json[start] != NUL
    modifies json
    ensures inside ==> (
      start < p <= |s| < json.Length && at <= into <= p && Unread(json, block, s, p)
      && Prepend(old(json[..at]), Minify(s[start..])) == Prepend(json[..into], Minify(s[p..])))
    ensures !inside ==> Minify(s[start..]) == None && TailKept(json, block, s)
  {
    hide Minify, ScanString, CommentEnd, LineLength, Unread, TailKept;
    AtNul(json, block, s, start);
    MinifyCases(s, start);
    inside, into, p := true, at, start;
    var c, d := json[p], json[p + 1];
    if Blank(c) {
      p := p + 1;
    } else if c == '/' && d == '/' {
      p := SkipLine(json, p, block, s);
    } else if c == '/' && d == '*' {
      p := SkipComment(json, p, block, s);
      inside := json[p] != NUL;
      p := p + 2;
      if !inside {
        UnreadTail(json, block, s, start);
        return;
      }
    } else if c == '\"' {
      inside, into, p := CopyLiteral(json, p, into, block, s);
      if inside {
        PrependTwice(old(json[..at]), s[start..p], Minify(s[p..]));
      }
      return;
    } else {
      assert json[..at] + s[start..start] == json[..at] && s[start..start + 1] == [c];
      CopyByte(json, into, p, json[..at], start, block, s);
      into, p := into + 1, p + 1;
      PrependTwice(old(json[..at]), [c], Minify(s[p..]));
      return;
    }
    Further(json, block, s, start, p);
  }

  lemma MinifyCases(s: string, p: nat)
    requires p < |s|
    ensures var m, c, d := Minify(s[p..]), s[p], if p + 1 < |s| then s[p + 1] else NUL;
            if Blank(c) then m == Minify(s[p + 1..])
            else if c == '/' && d == '/' then
              var n := p + LineLength(s[p..]);
              p < n && m == Minify(s[n..])
            else if c == '/' && d == '*' then
              var e := CommentEnd(s[p..]);
              m == if e.None? then None else Minify(s[p + e.value + 2..])
            else if c == '\"' then
              var r := ScanString(s[p + 1..]);
              m == if r.None? then None else Prepend(s[p..p + r.value + 2], Minify(s[p + r.value + 2..]))
            else m == Prepend([c], Minify(s[p + 1..]))
  {
    hide ScanString, CommentEnd, LineLength, Minify;
    var t := s[p..];
    MinifyUnfold(t);
    assert t[0] == s[p] && t[1..] == s[p + 1..];
    assert p + 1 < |s| ==> t[1] == s[p + 1];
    assert t[LineLength(t)..] == s[p + LineLength(t)..];
    var e := CommentEnd(t);
    assert e.Some? ==> t[e.value + 2..] == s[p + e.value + 2..];
    var r := ScanString(t[1..]);
    assert r.Some? ==> t[..r.value + 2] == s[p..p + r.value + 2] && t[r.value + 2..] == s[p + r.value + 2..];
  }

  lemma MinifyLine(s: string)
    requires |s| > 1 && s[0] == '/' && s[1] == '/'
    ensures 0 < LineLength(s) && Minify(s) == Minify(s[LineLength(s)..])
  {
    hide LineLength;
    LineLengthPositive(s);
  }

  lemma MinifyComment(s: string)
    requires |s| > 1 && s[0] == '/' && s[1] == '*'
    ensures var e := CommentEnd(s); Minify(s) == if e.None? then None else Minify(s[e.value + 2..])
  {
    hide CommentEnd;
  }

  lemma MinifyLiteral(s: string)
    requires s != "" && s[0] == '\"'
    ensures var r := ScanString(s[1..]);
            Minify(s) == if r.None? then None else Prepend(s[..r.value + 2], Minify(s[r.value + 2..]))
  {
    hide ScanString, Prepend;
  }

  lemma MinifyByte(s: string)
    requires s != "" && s[0] != '\"' && !(s[0] == '/' && |s| > 1 && (s[1] == '/' || s[1] == '*'))
    ensures Minify(s) == if Blank(s[0]) then Minify(s[1..]) else Prepend([s[0]], Minify(s[1..]))
  {
    hide Prepend;
  }

  lemma MinifyUnfold(s: string)
    requires s != ""
    ensures var m, c, d := Minify(s), s[0], if |s| > 1 then s[1] else NUL;
            if Blank(c) then m == Minify(s[1..])
            else if c == '/' && d == '/' then 0 < LineLength(s) && m == Minify(s[LineLength(s)..])
            else if c == '/' && d == '*' then
              var e := CommentEnd(s);
              m == if e.None? then None else Minify(s[e.value + 2..])
            else if c == '\"' then
              var r := ScanString(s[1..]);
              m == if r.None? then None else Prepend(s[..r.value + 2], Minify(s[r.value + 2..]))
            else m == Prepend([c], Minify(s[1..]))
  {
    hide ScanString, CommentEnd, LineLength, Prepend, Minify;
    if s[0] == '\"' {
      MinifyLiteral(s);
    } else if s[0] == '/' && |s| > 1 && s[1] == '/' {
      MinifyLine(s);
    } else if s[0] == '/' && |s| > 1 && s[1] == '*' {
      MinifyComment(s);
    } else {
      MinifyByte(s);
    }
  }
}
