/** Minifying byte by byte: each byte is dropped or kept by where it stands. */
module JsonFilter {
  import opened Options
  import opened JsonSpec
  import opened JsonRoundTrip
  import opened JsonLiteral
  import opened JsonString
  import opened JsonMinify

  /** What is written for a byte c at its place; a slash is held back until the byte behind it is known. */
  function Kept(mode: Mode, c: char): string {
    match mode
    case Outside => if c == ' ' || c == '\t' || c == '\r' || c == '\n' || c == '/' then "" else [c]
    case Slash =>
      if c == '/' || c == '*' then ""
      else if c == ' ' || c == '\t' || c == '\r' || c == '\n' then "/"
      else ['/', c]
    case Str => [c]
    case Hidden => [c]
    case Line => ""
    case Block => ""
    case Star => ""
  }

  /** What is written for the rest of a text. A slash at the end is kept. */
  function Filter(s: string, mode: Mode): string {
    if s == "" then if mode == Slash then "/" else ""
    else Kept(mode, s[0]) + Filter(s[1..], NextMode(mode, s[0]))
  }

  lemma FilterStep(s: string, mode: Mode)
    requires s != ""
    ensures Filter(s, mode) == Kept(mode, s[0]) + Filter(s[1..], NextMode(mode, s[0]))
  {
  }

  lemma FilterNothing(mode: Mode)
    ensures Filter("", mode) == if mode == Slash then "/" else ""
  {
  }

  lemma {:induction false} LineFiltered(s: string)
    ensures Filter(s, Line) == Filter(s[LineLength(s)..], Outside)
  {
    if s != "" && s[0] != '\n' {
      LineFiltered(s[1..]);
      assert s[LineLength(s)..] == s[1..][LineLength(s[1..])..];
    } else {
      assert s[0..] == s;
    }
  }

  /** Inside a comment, and behind a star that may be half of its end. */
  lemma {:induction false} CommentFiltered(s: string)
    ensures CommentEnd(s).Some? ==> Filter(s, Block) == Filter(s[CommentEnd(s).value + 2..], Outside)
    ensures var w := "*" + s;
            CommentEnd(w).Some? ==> Filter(s, Star) == Filter(w[CommentEnd(w).value + 2..], Outside)
  {
    hide Filter, NextMode, Kept, CommentEnd;
    var w := "*" + s;
    assert w[1..] == s;
    if s == "" {
      NoEnd();
      assert w == "*";
    } else {
      CommentFiltered(s[1..]);
      FilterStep(s, Block);
      FilterStep(s, Star);
      CommentModes(s[0]);
      EndNext(s);
      EndNext(w);
      assert w[2..] == s[1..] && w[1] == s[0] && w[0] == '*';
      assert s[0] == '*' ==> s == "*" + s[1..];
    }
  }

  lemma CommentModes(c: char)
    ensures Kept(Block, c) == "" && Kept(Star, c) == ""
    ensures NextMode(Block, c) == (if c == '*' then Star else Block)
    ensures NextMode(Star, c) == if c == '/' then Outside else if c == '*' then Star else Block
  {
  }

  lemma NoEnd()
    ensures CommentEnd("") == None && CommentEnd("*") == None
  {
  }

  lemma EndNext(s: string)
    requires s != ""
    ensures |s| > 1 && s[0] == '*' && s[1] == '/' ==> CommentEnd(s) == Some(0)
    ensures !(|s| > 1 && s[0] == '*' && s[1] == '/') && CommentEnd(s).Some? ==>
            var e := CommentEnd(s[1..]);
            e.Some? && CommentEnd(s).value == 1 + e.value && s[CommentEnd(s).value + 2..] == s[1..][e.value + 2..]
  {
  }

  /** Inside a string. */
  lemma {:induction false} StringFiltered(s: string)
    requires ScanString(s).Some?
    ensures var n := ScanString(s).value + 1;
            Filter(s, Str) == s[..n] + Filter(s[n..], Outside)
    decreases |s|
  {
    hide Filter, ScanString, Kept, NextMode;
    ScanUnfold(s);
    FilterStep(s, Str);
    StringModes(s[0]);
    var n := ScanString(s).value + 1;
    if s[0] == '\"' {
      assert s[..1] == [s[0]];
    } else if s[0] == '\\' {
      StringFiltered(s[2..]);
      FilterStep(s[1..], Hidden);
      StringModes(s[1]);
      assert s[1..][1..] == s[2..] && s[1..][0] == s[1];
      assert s[2..][n - 2..] == s[n..];
      assert s[..n] == [s[0]] + ([s[1]] + s[2..][..n - 2]);
      Assoc([s[0]], [s[1]] + s[2..][..n - 2], Filter(s[n..], Outside));
      Assoc([s[1]], s[2..][..n - 2], Filter(s[n..], Outside));
    } else {
      StringFiltered(s[1..]);
      assert s[1..][n - 1..] == s[n..];
      assert s[..n] == [s[0]] + s[1..][..n - 1];
      Assoc([s[0]], s[1..][..n - 1], Filter(s[n..], Outside));
    }
  }

  lemma StringModes(c: char)
    ensures Kept(Str, c) == [c] && Kept(Hidden, c) == [c] && NextMode(Hidden, c) == Str
    ensures NextMode(Str, c) == if c == '\\' then Hidden else if c == '\"' then Outside else Str
  {
  }

  /** A slash that opens no comment is kept. */
  lemma SlashFiltered(s: string)
    requires !OpensComment(s)
    ensures Filter(s, Slash) == "/" + Filter(s, Outside)
  {
    if s != "" {
      assert NextMode(Slash, s[0]) == NextMode(Outside, s[0]);
      assert Kept(Slash, s[0]) == "/" + Kept(Outside, s[0]);
    }
  }

  /** A byte outside of strings and comments. */
  lemma OutsideModes(c: char)
    ensures Blank(c) <==> c == ' ' || c == '\t' || c == '\r' || c == '\n'
    ensures NextMode(Outside, c) == (if c == '\"' then Str else if c == '/' then Slash else Outside)
    ensures Kept(Outside, c) == if Blank(c) || c == '/' then "" else [c]
    ensures NextMode(Slash, '/') == Line && NextMode(Slash, '*') == Star && Kept(Slash, '/') == "" && Kept(Slash, '*') == ""
  {
  }

  lemma LineOutside(s: string)
    requires |s| > 1 && s[0] == '/' && s[1] == '/'
    ensures Filter(s, Outside) == Filter(s[LineLength(s)..], Outside)
  {
    hide Filter, Kept, NextMode;
    FilterStep(s, Outside);
    FilterStep(s[1..], Slash);
    OutsideModes('/');
    var t := s[1..][1..];
    LineFiltered(t);
    assert t == s[2..] && LineLength(s[1..]) == 1 + LineLength(t) && LineLength(s) == 1 + LineLength(s[1..]);
    assert t[LineLength(t)..] == s[LineLength(s)..];
  }

  lemma BlockOutside(s: string)
    requires |s| > 1 && s[0] == '/' && s[1] == '*' && CommentEnd(s).Some?
    ensures Filter(s, Outside) == Filter(s[CommentEnd(s).value + 2..], Outside)
  {
    hide Filter, Kept, NextMode, CommentEnd;
    FilterStep(s, Outside);
    FilterStep(s[1..], Slash);
    OutsideModes('/');
    var t := s[1..][1..];
    CommentFiltered(t);
    assert s[1..] == "*" + t;
    EndNext(s);
  }

  /** A text whose strings and comments are closed is minified to the bytes that are kept. */
  lemma {:induction false} MinifyFilters(s: string)
    requires Closed(s)
    ensures Minify(s) == Some(Filter(s, Outside))
    decreases |s|
  {
    hide Minify, Filter, LineLength, CommentEnd, ScanString, Kept, NextMode, Closed;
    MinifyClosed(s);
    if s == "" {
      MinifyEmpty();
      FilterNothing(Outside);
    } else {
      MinifyUnfold(s);
      var c, d := s[0], if |s| > 1 then s[1] else NUL;
      if c == '/' && d == '/' {
        RestClosed(s[LineLength(s)..]);
        MinifyFilters(s[LineLength(s)..]);
        LineOutside(s);
      } else if c == '/' && d == '*' {
        RestClosed(s[CommentEnd(s).value + 2..]);
        MinifyFilters(s[CommentEnd(s).value + 2..]);
        BlockOutside(s);
      } else if c == '\"' {
        var r := ScanString(s[1..]);
        RestClosed(s[r.value + 2..]);
        MinifyFilters(s[r.value + 2..]);
        QuoteOutside(s);
      } else {
        RestClosed(s[1..]);
        MinifyFilters(s[1..]);
        ByteOutside(s);
        assert "" + Filter(s[1..], Outside) == Filter(s[1..], Outside);
      }
    }
  }

  lemma RestClosed(s: string)
    requires Minify(s).Some?
    ensures Closed(s)
  {
    MinifyClosed(s);
  }

  lemma QuoteOutside(s: string)
    requires s != "" && s[0] == '\"' && ScanString(s[1..]).Some?
    ensures var n := ScanString(s[1..]).value + 2;
            Filter(s, Outside) == s[..n] + Filter(s[n..], Outside)
  {
    hide Filter, ScanString, Kept, NextMode;
    var n := ScanString(s[1..]).value + 2;
    FilterStep(s, Outside);
    OutsideModes('\"');
    StringFiltered(s[1..]);
    assert s[1..][n - 1..] == s[n..];
    assert s[..n] == [s[0]] + s[1..][..n - 1];
    Assoc([s[0]], s[1..][..n - 1], Filter(s[n..], Outside));
  }

  lemma ByteOutside(s: string)
    requires s != "" && s[0] != '\"' && !(s[0] == '/' && OpensComment(s[1..]))
    ensures Filter(s, Outside) == (if Blank(s[0]) then "" else [s[0]]) + Filter(s[1..], Outside)
  {
    hide Filter, Kept, NextMode;
    FilterStep(s, Outside);
    OutsideModes(s[0]);
    if s[0] == '/' {
      SlashFiltered(s[1..]);
    }
  }
}
