/** The verdict on texts that are put together from lines of blanks and words, byte by byte. */
module CompareText {
  import opened Compare

  // ---------- Bytes ----------

  /** What isSpaceEx takes for a space: NUL, tab, line feed, vertical tab, form feed, carriage return and blank. */
  predicate SpaceByte(c: Byte) {
    c == 0 || c == 9 || c == 10 || c == 11 || c == 12 || c == 13 || c == 32
  }

  lemma SpaceBytes(c: Byte)
    ensures Space(c) <==> c == 0 || c == 9 || c == 10 || c == 11 || c == 12 || c == 13 || c == 32
    ensures Blank(c) <==> c == 0 || c == 9 || c == 11 || c == 12 || c == 13 || c == 32
    ensures SpaceByte(c) == Space(c)
  {
  }

  /** Each of these bytes in front of a line feed or the end makes no difference. */
  lemma TrailingByte(a: seq<Byte>, w: Byte, c: seq<Byte>)
    requires w == 0 || w == 9 || w == 11 || w == 12 || w == 13 || w == 32
    requires c == [] || c[0] == 10
    ensures VerdictOf(a + c, a + [w] + c) == Accepted
  {
    InsertedAccepted(a, [w], c);
  }

  /** The bytes that are no spaces. */
  function Solid(s: seq<Byte>): seq<Byte> {
    if s == [] then []
    else if s[0] == 0 || s[0] == 9 || s[0] == 10 || s[0] == 11 || s[0] == 12 || s[0] == 13 || s[0] == 32 then Solid(s[1..])
    else [s[0]] + Solid(s[1..])
  }

  function Flat(ws: seq<seq<Byte>>): seq<Byte> {
    if ws == [] then [] else ws[0] + Flat(ws[1..])
  }

  lemma SolidFirst(s: seq<Byte>)
    requires s != []
    ensures Solid(s) == (if Space(s[0]) then [] else [s[0]]) + Solid(s[1..])
  {
    SpaceBytes(s[0]);
  }

  lemma FlatFirst(w: seq<Byte>, ws: seq<seq<Byte>>)
    ensures Flat([w] + ws) == w + Flat(ws)
  {
    assert ([w] + ws)[1..] == ws;
  }

  /** The words, one behind the other, are the text without its spaces. */
  lemma {:induction false} WordsAreSolid(s: seq<Byte>)
    ensures Flat(Words(s)) == Solid(s)
    ensures FromInside(s).0 + Flat(FromInside(s).1) == Solid(s)
  {
    hide Words, FromInside, Flat, Solid;
    if s == [] {
      FromInsideSpace(s);
      NoWords();
      Nothing();
    } else {
      WordsAreSolid(s[1..]);
      SolidFirst(s);
      if Space(s[0]) {
        WordsOfSpace(s);
        FromInsideSpace(s);
      } else {
        FromInsideStep(s);
        FlatFirst(FromInside(s).0, FromInside(s).1);
      }
    }
  }

  lemma Nothing()
    ensures Flat([]) == [] && Solid([]) == []
  {
  }

  lemma {:induction false} SolidParts(a: seq<Byte>, b: seq<Byte>)
    ensures Solid(a + b) == Solid(a) + Solid(b)
  {
    hide Solid;
    if a == [] {
      Nothing();
      assert a + b == b;
    } else {
      SolidParts(a[1..], b);
      SolidFirst(a);
      SolidFirst(a + b);
      assert (a + b)[1..] == a[1..] + b;
    }
  }

  /** Any other byte makes a difference, wherever it is put. */
  lemma OtherByte(a: seq<Byte>, w: Byte, c: seq<Byte>)
    requires !(w == 0 || w == 9 || w == 10 || w == 11 || w == 12 || w == 13 || w == 32)
    ensures VerdictOf(a + c, a + [w] + c) == WrongAnswer
  {
    hide Words;
    WordsAreSolid(a + c);
    WordsAreSolid(a + [w] + c);
    SolidParts(a, c);
    SolidParts(a + [w], c);
    SolidParts(a, [w]);
    assert Solid([w]) == [w];
  }

  // ---------- Texts ----------

  /** A gap as lines of blanks, one more than it has line feeds, and the word behind it. */
  datatype Piece = Piece(gap: seq<seq<Byte>>, word: seq<Byte>)

  /** The lines, with a line feed between each two. */
  function Lines(g: seq<seq<Byte>>): seq<Byte> {
    if g == [] then [] else if |g| == 1 then g[0] else g[0] + [10] + Lines(g[1..])
  }

  predicate BlankLines(g: seq<seq<Byte>>) {
    g != []
    && forall i, k | 0 <= i < |g| && 0 <= k < |g[i]| ::
         g[i][k] == 0 || g[i][k] == 9 || g[i][k] == 11 || g[i][k] == 12 || g[i][k] == 13 || g[i][k] == 32
  }

  predicate IsWord(w: seq<Byte>) {
    w != [] && forall k | 0 <= k < |w| :: !SpaceByte(w[k])
  }

  predicate PieceOk(p: Piece) {
    BlankLines(p.gap) && IsWord(p.word)
  }

  /** Every word but the first has a space in front of it. */
  predicate TextOk(ps: seq<Piece>, tail: seq<Byte>) {
    && (forall i | 0 <= i < |ps| :: PieceOk(ps[i]))
    && (forall i | 1 <= i < |ps| :: Lines(ps[i].gap) != [])
    && (forall k | 0 <= k < |tail| :: SpaceByte(tail[k]))
  }

  function TextOf(ps: seq<Piece>, tail: seq<Byte>): seq<Byte> {
    if ps == [] then tail else Lines(ps[0].gap) + (ps[0].word + TextOf(ps[1..], tail))
  }

  function WordsOf(ps: seq<Piece>): (ws: seq<seq<Byte>>)
    ensures |ws| == |ps| && forall i | 0 <= i < |ps| :: ws[i] == ps[i].word
  {
    if ps == [] then [] else [ps[0].word] + WordsOf(ps[1..])
  }

  /** h has a line feed more than g, its last line is empty, and the line in front of that is shorter than the last of g. */
  predicate FeedForBlanks(g: seq<seq<Byte>>, h: seq<seq<Byte>>)
    requires g != []
  {
    |h| == |g| + 1 && |h[|h| - 1]| == 0 && |h[|h| - 2]| < |g[|g| - 1]|
  }

  /** As many line feeds and as many blanks behind the last of them; or a line feed for blanks. */
  predicate LikeGaps(g: seq<seq<Byte>>, h: seq<seq<Byte>>)
    requires g != [] && h != []
  {
    (|g| == |h| && |g[|g| - 1]| == |h[|h| - 1]|) || FeedForBlanks(g, h) || FeedForBlanks(h, g)
  }

  // ---------- Gaps ----------

  lemma {:induction false} BlankRun(b: seq<Byte>, t: seq<Byte>)
    requires (forall k | 0 <= k < |b| :: Blank(b[k])) && (t == [] || !Blank(t[0]))
    ensures DropBlanks(b + t) == t && Feeds(b + t) == Feeds(t) && SkipSpaces(b + t) == SkipSpaces(t)
  {
    if b == [] {
      assert b + t == t;
    } else {
      assert (b + t)[1..] == b[1..] + t;
      BlankRun(b[1..], t);
    }
  }

  lemma BlankLine(g: seq<seq<Byte>>, i: nat)
    requires BlankLines(g) && i < |g|
    ensures forall k | 0 <= k < |g[i]| :: Blank(g[i][k])
    ensures i + 1 < |g| ==> BlankLines(g[i + 1..])
  {
  }

  /** The last line of a gap, in front of a word. */
  lemma LastRun(b: seq<Byte>, r: seq<Byte>)
    requires (forall k | 0 <= k < |b| :: Blank(b[k])) && r != [] && !Space(r[0])
    ensures SkipSpaces(b + r) == r && Feeds(b + r) == 0 && Trailing(b + r) == |b|
  {
    BlankRun(b, r);
  }

  /** A line in front of others. */
  lemma FirstRun(b: seq<Byte>, u: seq<Byte>)
    requires forall k | 0 <= k < |b| :: Blank(b[k])
    ensures var s := b + [10] + u;
            && SkipSpaces(s) == SkipSpaces(u) && Feeds(s) == 1 + Feeds(u) && Trailing(s) == Trailing(u)
            && LastLine(s) == if Feeds(u) == 0 then |b| else LastLine(u)
  {
    hide SkipSpaces, Feeds;
    var v := [10] + u;
    var s := b + [10] + u;
    assert s == b + v && v[1..] == u;
    FeedFirst(u);
    BlankRun(b, v);
    assert DropLine(s) == u;
    LineFirst(s);
  }

  lemma FeedFirst(u: seq<Byte>)
    ensures Feeds([10] + u) == 1 + Feeds(u) && SkipSpaces([10] + u) == SkipSpaces(u)
  {
    assert ([10] + u)[1..] == u;
  }

  /** The runs of a gap in front of a word, and what skipping leaves. */
  lemma {:induction false} RunsOfLines(g: seq<seq<Byte>>, r: seq<Byte>)
    requires BlankLines(g) && r != [] && !Space(r[0])
    ensures var s := Lines(g) + r;
            && SkipSpaces(s) == r && Feeds(s) == |g| - 1 && Trailing(s) == |g[|g| - 1]|
            && (|g| >= 2 ==> LastLine(s) == |g[|g| - 2]|)
    decreases |g|
  {
    assert g != [];
    hide BlankLines, SkipSpaces, Feeds, Trailing, LastLine;
    BlankLine(g, 0);
    if |g| == 1 {
      LastRun(g[0], r);
    } else {
      var u := Lines(g[1..]) + r;
      RunsOfLines(g[1..], r);
      FirstRun(g[0], u);
      assert Lines(g) + r == g[0] + [10] + u;
      assert g[1..][|g| - 2] == g[|g| - 1];
      assert |g| > 2 ==> g[1..][|g| - 3] == g[|g| - 2];
    }
  }

  lemma GapsAreRuns(g: seq<seq<Byte>>, r: seq<Byte>, h: seq<seq<Byte>>, t: seq<Byte>)
    requires BlankLines(g) && BlankLines(h) && r != [] && t != [] && !Space(r[0]) && !Space(t[0])
    ensures LikeRuns(Lines(g) + r, Lines(h) + t) <==> LikeGaps(g, h)
  {
    hide BlankLines, Feeds, Trailing, LastLine, Lines;
    RunsOfLines(g, r);
    RunsOfLines(h, t);
  }

  // ---------- Words ----------

  lemma {:induction false} WordInFront(w: seq<Byte>, r: seq<Byte>)
    requires (forall k | 0 <= k < |w| :: !SpaceByte(w[k])) && (r == [] || Space(r[0]))
    ensures WordLength(w + r) == |w| && (w + r)[..|w|] == w && (w + r)[|w|..] == r
  {
    if w == [] {
      assert w + r == r;
    } else {
      SpaceBytes(w[0]);
      assert (w + r)[1..] == w[1..] + r;
      WordInFront(w[1..], r);
    }
  }

  lemma {:induction false} OnlySpaces(s: seq<Byte>)
    requires forall k | 0 <= k < |s| :: SpaceByte(s[k])
    ensures SkipSpaces(s) == []
  {
    if s != [] {
      SpaceBytes(s[0]);
      OnlySpaces(s[1..]);
    }
  }

  /** A gap that is not empty starts with a space. */
  lemma LinesFirst(g: seq<seq<Byte>>)
    requires BlankLines(g)
    ensures Lines(g) == [] || Space(Lines(g)[0])
  {
    BlankLine(g, 0);
  }

  lemma RestFirst(ps: seq<Piece>, tail: seq<Byte>)
    requires ps != [] && TextOk(ps, tail)
    ensures PieceOk(ps[0]) && TextOk(ps[1..], tail)
    ensures var r := TextOf(ps[1..], tail); r == [] || Space(r[0])
  {
    hide IsWord, BlankLines, Lines;
    if |ps| == 1 {
      if tail != [] {
        SpaceBytes(tail[0]);
      }
    } else {
      assert PieceOk(ps[1]) && ps[1..][0] == ps[1];
      LinesFirst(ps[1].gap);
    }
  }

  /** The first piece of a text: its gap is skipped, its word read, and the rest follows. */
  lemma FirstPiece(ps: seq<Piece>, tail: seq<Byte>)
    requires ps != [] && TextOk(ps, tail)
    ensures PieceOk(ps[0]) && TextOk(ps[1..], tail)
    ensures var s, u, r := TextOf(ps, tail), ps[0].word + TextOf(ps[1..], tail), TextOf(ps[1..], tail);
            && SkipSpaces(s) == u && u != [] && !Space(u[0]) && s == Lines(ps[0].gap) + u
            && AfterWord(u) == r && u[..WordLength(u)] == ps[0].word
  {
    hide BlankLines, Lines, TextOk, SkipSpaces, WordLength;
    RestFirst(ps, tail);
    var r := TextOf(ps[1..], tail);
    var u := ps[0].word + r;
    WordInFront(ps[0].word, r);
    SpaceBytes(ps[0].word[0]);
    assert u[0] == ps[0].word[0];
    RunsOfLines(ps[0].gap, u);
  }

  lemma WordsStep(s: seq<Byte>)
    ensures SkipSpaces(s) == [] ==> Words(s) == []
    ensures SkipSpaces(s) != [] ==>
            Words(s) == [SkipSpaces(s)[..WordLength(SkipSpaces(s))]] + Words(AfterWord(SkipSpaces(s)))
  {
  }

  lemma {:induction false} WordsOfText(ps: seq<Piece>, tail: seq<Byte>)
    requires TextOk(ps, tail)
    ensures Words(TextOf(ps, tail)) == WordsOf(ps)
    decreases |ps|
  {
    hide Words, PieceOk, Lines, AfterWord, WordLength;
    WordsStep(TextOf(ps, tail));
    if ps == [] {
      OnlySpaces(tail);
    } else {
      FirstPiece(ps, tail);
      WordsOfText(ps[1..], tail);
    }
  }

  // ---------- Verdicts ----------

  ghost predicate GapsAlike(ps: seq<Piece>, qs: seq<Piece>)
    requires (forall i | 0 <= i < |ps| :: ps[i].gap != []) && (forall i | 0 <= i < |qs| :: qs[i].gap != [])
  {
    forall i | 0 <= i < |ps| && i < |qs| :: LikeGaps(ps[i].gap, qs[i].gap)
  }

  lemma GapsThere(ps: seq<Piece>, tail: seq<Byte>)
    requires TextOk(ps, tail)
    ensures forall i | 0 <= i < |ps| :: ps[i].gap != []
  {
  }

  lemma LayoutStep(s: seq<Byte>, t: seq<Byte>)
    ensures SkipSpaces(s) == [] || SkipSpaces(t) == [] ==> SameLayout(s, t)
    ensures SkipSpaces(s) != [] && SkipSpaces(t) != [] ==>
            (SameLayout(s, t) <==> LikeRuns(s, t) && SameLayout(AfterWord(SkipSpaces(s)), AfterWord(SkipSpaces(t))))
  {
    hide LikeRuns;
  }

  lemma {:induction false} LayoutOfTexts(ps: seq<Piece>, e: seq<Byte>, qs: seq<Piece>, f: seq<Byte>)
    requires TextOk(ps, e) && TextOk(qs, f) && |ps| == |qs|
    ensures (forall i | 0 <= i < |ps| :: ps[i].gap != []) && (forall i | 0 <= i < |qs| :: qs[i].gap != [])
    ensures SameLayout(TextOf(ps, e), TextOf(qs, f)) <==> GapsAlike(ps, qs)
    decreases |ps|
  {
    hide Lines, LikeRuns, LikeGaps, BlankLines, IsWord, AfterWord, SkipSpaces, WordLength, SameLayout;
    GapsThere(ps, e);
    GapsThere(qs, f);
    var s, t := TextOf(ps, e), TextOf(qs, f);
    LayoutStep(s, t);
    if ps == [] {
      OnlySpaces(e);
    } else {
      FirstPiece(ps, e);
      FirstPiece(qs, f);
      LayoutOfTexts(ps[1..], e, qs[1..], f);
      GapsAreRuns(ps[0].gap, ps[0].word + TextOf(ps[1..], e), qs[0].gap, qs[0].word + TextOf(qs[1..], f));
      AlikeFirst(ps, qs);
    }
  }

  lemma AlikeFirst(ps: seq<Piece>, qs: seq<Piece>)
    requires |ps| == |qs| && ps != []
    requires (forall i | 0 <= i < |ps| :: ps[i].gap != []) && (forall i | 0 <= i < |qs| :: qs[i].gap != [])
    ensures GapsAlike(ps, qs) <==> LikeGaps(ps[0].gap, qs[0].gap) && GapsAlike(ps[1..], qs[1..])
  {
    hide LikeGaps;
    assert forall i | 1 <= i < |ps| :: ps[i] == ps[1..][i - 1] && qs[i] == qs[1..][i - 1];
  }

  /** The verdict on two texts, from their words and the lines of their gaps. What follows the last word does not count. */
  lemma VerdictOnTexts(ps: seq<Piece>, e: seq<Byte>, qs: seq<Piece>, f: seq<Byte>)
    requires TextOk(ps, e) && TextOk(qs, f)
    ensures (forall i | 0 <= i < |ps| :: ps[i].gap != []) && (forall i | 0 <= i < |qs| :: qs[i].gap != [])
    ensures VerdictOf(TextOf(ps, e), TextOf(qs, f)) ==
            if WordsOf(ps) != WordsOf(qs) then WrongAnswer else if GapsAlike(ps, qs) then Accepted else PresentationError
  {
    hide SameLayout, Words, Alike, TextOf, GapsAlike, TextOk;
    GapsThere(ps, e);
    GapsThere(qs, f);
    WordsOfText(ps, e);
    WordsOfText(qs, f);
    AcceptedExactly(TextOf(ps, e), TextOf(qs, f));
    if WordsOf(ps) == WordsOf(qs) {
      LayoutOfTexts(ps, e, qs, f);
    }
  }

  // ---------- Every text is one of these ----------

  /** The lines of the spaces at the front. */
  function GapLines(s: seq<Byte>): (g: seq<seq<Byte>>)
    ensures g != []
  {
    if s == [] || !Space(s[0]) then [[]]
    else
      var g := GapLines(s[1..]);
      if s[0] == 10 then [[]] + g else [[s[0]] + g[0]] + g[1..]
  }

  /** One more line in front, and one more blank in the first line. */
  lemma LineAdded(g: seq<seq<Byte>>)
    requires BlankLines(g)
    ensures BlankLines([[]] + g) && Lines([[]] + g) == [10] + Lines(g)
  {
    hide BlankLines;
    assert ([[]] + g)[1..] == g;
    EmptyLineAdded(g);
  }

  lemma EmptyLineAdded(g: seq<seq<Byte>>)
    requires BlankLines(g)
    ensures BlankLines([[]] + g) && g != []
  {
  }

  lemma BlankAdded(c: Byte, g: seq<seq<Byte>>)
    requires BlankLines(g) && Blank(c)
    ensures BlankLines([[c] + g[0]] + g[1..])
  {
    SpaceBytes(c);
  }

  lemma BlankInFront(c: Byte, g: seq<seq<Byte>>)
    requires g != []
    ensures Lines([[c] + g[0]] + g[1..]) == [c] + Lines(g)
  {
    var h := [[c] + g[0]] + g[1..];
    assert h[1..] == g[1..];
    if |g| > 1 {
      assert [c] + g[0] + [10] + Lines(g[1..]) == [c] + (g[0] + [10] + Lines(g[1..]));
    }
  }

  lemma {:induction false} GapLinesAre(s: seq<Byte>)
    ensures BlankLines(GapLines(s)) && Lines(GapLines(s)) + SkipSpaces(s) == s
  {
    hide BlankLines, Lines;
    if s != [] && Space(s[0]) {
      var g := GapLines(s[1..]);
      GapLinesAre(s[1..]);
      if s[0] == 10 {
        LineAdded(g);
      } else {
        BlankAdded(s[0], g);
        BlankInFront(s[0], g);
      }
      assert [s[0]] + Lines(g) + SkipSpaces(s) == [s[0]] + (Lines(g) + SkipSpaces(s[1..]));
    } else {
      NoLines(s);
    }
  }

  lemma NoLines(s: seq<Byte>)
    ensures BlankLines([[]]) && Lines([[]]) + s == s
  {
  }

  lemma {:induction false} WordIs(s: seq<Byte>)
    requires s != [] && !Space(s[0])
    ensures IsWord(s[..WordLength(s)]) && s == s[..WordLength(s)] + AfterWord(s)
    ensures AfterWord(s) == [] || Space(AfterWord(s)[0])
  {
    SpaceBytes(s[0]);
    assert WordLength(s) > 0;
    if s[1..] != [] && !Space(s[1]) {
      WordIs(s[1..]);
      WordStep(s);
    } else {
      assert WordLength(s) == 1;
    }
  }

  /** Every text has such a form. */
  lemma {:induction false} Pieces(s: seq<Byte>) returns (ps: seq<Piece>, tail: seq<Byte>)
    ensures TextOk(ps, tail) && TextOf(ps, tail) == s
    decreases |s|
  {
    hide BlankLines, Lines, IsWord, AfterWord, WordLength, SkipSpaces, GapLines;
    var u := SkipSpaces(s);
    if u == [] {
      ps, tail := [], s;
      SpacesOnly(s);
    } else {
      WordIs(u);
      WordBehind(u);
      GapLinesAre(s);
      var r := AfterWord(u);
      var qs, e := Pieces(r);
      var p := Piece(GapLines(s), u[..WordLength(u)]);
      ps, tail := [p] + qs, e;
      assert ps[1..] == qs;
      FirstGap(r, qs, e);
    }
  }

  lemma WordBehind(u: seq<Byte>)
    requires u != [] && !Space(u[0])
    ensures |AfterWord(u)| < |u|
  {
  }

  lemma {:induction false} SpacesOnly(s: seq<Byte>)
    requires SkipSpaces(s) == []
    ensures TextOk([], s) && TextOf([], s) == s
  {
    if s != [] {
      SpacesOnly(s[1..]);
      SpaceBytes(s[0]);
      assert forall k | 1 <= k < |s| :: s[k] == s[1..][k - 1];
    }
  }

  /** A text that starts with a space starts with a gap. */
  lemma FirstGap(r: seq<Byte>, qs: seq<Piece>, e: seq<Byte>)
    requires TextOk(qs, e) && TextOf(qs, e) == r && (r == [] || Space(r[0]))
    ensures qs != [] ==> Lines(qs[0].gap) != []
  {
    if qs != [] && Lines(qs[0].gap) == [] {
      assert PieceOk(qs[0]);
      assert r[0] == qs[0].word[0];
      SpaceBytes(r[0]);
    }
  }
}
