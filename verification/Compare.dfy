/** The output checker: two file cursors that walk over whitespace and words. */
module Compare {
  import opened Options

  datatype Verdict = Accepted | PresentationError | WrongAnswer | RuntimeError

  type Byte = b: int | 0 <= b < 256 witness 0

  const EOF := -1
  const NEWLINE := 10

  /** isSpaceEx: what isspace takes for a space, and the NUL. */
  predicate Space(c: int) {
    9 <= c <= 13 || c == 32 || c == 0
  }

  predicate Blank(c: int) {
    Space(c) && c != NEWLINE
  }

  // ---------- Words ----------

  function SkipSpaces(s: seq<Byte>): (t: seq<Byte>)
    ensures |t| <= |s|
    ensures t != [] ==> !Space(t[0])
  {
    if s == [] || !Space(s[0]) then s else SkipSpaces(s[1..])
  }

  /** Length of the word at the front. */
  function WordLength(s: seq<Byte>): (n: nat)
    ensures n <= |s|
  {
    if s == [] || Space(s[0]) then 0 else 1 + WordLength(s[1..])
  }

  /** The maximal runs without a space. */
  function Words(s: seq<Byte>): seq<seq<Byte>>
    decreases |s|
  {
    var t := SkipSpaces(s);
    if t == [] then []
    else
      WordAtFront(t);
      [t[..WordLength(t)]] + Words(t[WordLength(t)..])
  }

  lemma WordAtFront(s: seq<Byte>)
    requires s != [] && !Space(s[0])
    ensures WordLength(s) > 0
  {
  }

  lemma {:induction false} SkipSpacesTwice(s: seq<Byte>)
    ensures SkipSpaces(SkipSpaces(s)) == SkipSpaces(s)
    ensures Words(SkipSpaces(s)) == Words(s)
  {
    if s != [] && Space(s[0]) {
      SkipSpacesTwice(s[1..]);
    }
  }

  /** From inside a word: what is left of it, and the words behind it. */
  function FromInside(s: seq<Byte>): (seq<Byte>, seq<seq<Byte>>) {
    (s[..WordLength(s)], Words(s[WordLength(s)..]))
  }

  lemma WordStep(s: seq<Byte>)
    requires s != [] && !Space(s[0])
    ensures var m, n := WordLength(s), WordLength(s[1..]);
            m > 0 && s[..m] == [s[0]] + s[1..][..n] && s[m..] == s[1..][n..]
  {
    var n := WordLength(s[1..]);
    assert s[..n + 1] == [s[0]] + s[1..][..n];
  }

  lemma FromInsideStep(s: seq<Byte>)
    requires s != [] && !Space(s[0])
    ensures FromInside(s) == ([s[0]] + FromInside(s[1..]).0, FromInside(s[1..]).1)
    ensures FromInside(s).0 != [] && FromInside(s).0[0] == s[0]
    ensures Words(s) == [FromInside(s).0] + FromInside(s).1
  {
    hide Words, WordLength;
    WordStep(s);
    WordsUnfold(s);
  }

  lemma WordsUnfold(s: seq<Byte>)
    requires s != [] && !Space(s[0])
    ensures Words(s) == [s[..WordLength(s)]] + Words(s[WordLength(s)..])
  {
  }

  lemma FromInsideSpace(s: seq<Byte>)
    requires s == [] || Space(s[0])
    ensures FromInside(s) == ([], Words(s))
  {
    assert s[0..] == s;
  }

  lemma NoWords()
    ensures Words([]) == []
  {
  }

  // ---------- Trailing blanks ----------

  /** Without the blanks in front of a line feed or the end. */
  function Strip(s: seq<Byte>): seq<Byte> {
    if s == [] then []
    else
      var t := Strip(s[1..]);
      if Blank(s[0]) && (t == [] || t[0] == NEWLINE) then t else [s[0]] + t
  }

  predicate Blanks(s: seq<Byte>) {
    forall i | 0 <= i < |s| :: Blank(s[i])
  }

  lemma {:induction false} StripBlanks(b: seq<Byte>, c: seq<Byte>)
    requires Blanks(b) && (c == [] || c[0] == NEWLINE)
    ensures Strip(b + c) == Strip(c) && (Strip(c) == [] || Strip(c)[0] == NEWLINE)
  {
    if b == [] {
      assert b + c == c;
    } else {
      assert (b + c)[1..] == b[1..] + c;
      StripBlanks(b[1..], c);
    }
  }

  /** Blanks put in before a line feed or the end make no difference to the stripped text. */
  lemma {:induction false} StripInserted(a: seq<Byte>, b: seq<Byte>, c: seq<Byte>)
    requires Blanks(b) && (c == [] || c[0] == NEWLINE)
    ensures Strip(a + b + c) == Strip(a + c)
  {
    if a == [] {
      assert a + b + c == b + c && a + c == c;
      StripBlanks(b, c);
    } else {
      StripInserted(a[1..], b, c);
      assert (a + b + c)[1..] == a[1..] + b + c && (a + c)[1..] == a[1..] + c;
    }
  }

  lemma {:induction false} StripFirst(s: seq<Byte>)
    ensures Strip(s) == [] ==> Blanks(s)
    ensures s != [] && !Blank(s[0]) ==> Strip(s) != [] && Strip(s)[0] == s[0] && Strip(s)[1..] == Strip(s[1..])
    ensures s != [] && Blank(s[0]) && Strip(s) != [] && Strip(s)[0] != NEWLINE ==> Strip(s)[0] == s[0] && Strip(s)[1..] == Strip(s[1..])
    ensures s != [] && Blank(s[0]) && (Strip(s) == [] || Strip(s)[0] == NEWLINE) ==> Strip(s) == Strip(s[1..])
  {
    if s != [] {
      StripFirst(s[1..]);
    }
  }

  /** Taking one byte from each of two texts that agree up to trailing blanks. */
  lemma StripStep(s: seq<Byte>, t: seq<Byte>)
    requires Strip(s) == Strip(t) && s != [] && t != []
    requires s[0] == t[0] || (Blank(s[0]) && Blank(t[0]))
    ensures Strip(s[1..]) == Strip(t[1..])
  {
    hide Strip;
    StripFirst(s);
    StripFirst(t);
  }

  /** In agreeing texts a space never meets the byte of a word. */
  lemma StripSpaces(s: seq<Byte>, t: seq<Byte>)
    requires Strip(s) == Strip(t) && s != [] && Space(s[0])
    ensures t == [] ==> Blanks(s)
    ensures t != [] ==> Space(t[0])
    ensures t != [] && t[0] == NEWLINE && s[0] != NEWLINE ==> Strip(s[1..]) == Strip(t)
  {
    hide Strip;
    assert Strip([]) == [] by { StripNothing(); }
    StripFirst(s);
    StripFirst(t);
  }

  lemma StripNothing()
    ensures Strip([]) == []
  {
  }

  lemma WordsOfSpace(s: seq<Byte>)
    requires s != [] && Space(s[0])
    ensures Words(s) == Words(s[1..])
  {
    hide Words;
    SkipSpacesTwice(s);
    SkipSpacesTwice(s[1..]);
  }

  /** The first bytes of a text and of its stripped form belong to the same words. */
  lemma {:induction false} StripWords(s: seq<Byte>)
    ensures Words(Strip(s)) == Words(s) && FromInside(Strip(s)) == FromInside(s)
  {
    hide Words, FromInside;
    if s == [] {
    } else {
      var t := Strip(s[1..]);
      StripWords(s[1..]);
      if !Space(s[0]) {
        assert Strip(s) == [s[0]] + t && Strip(s)[1..] == t;
        FromInsideStep(s);
        FromInsideStep(Strip(s));
      } else {
        assert Strip(s) == t || (Strip(s) == [s[0]] + t && Strip(s)[1..] == t);
        WordsOfSpace(s);
        FromInsideSpace(s);
        if Strip(s) != t {
          WordsOfSpace(Strip(s));
          FromInsideSpace(Strip(s));
        } else {
          FromInsideSpace(t);
        }
      }
    }
  }

  // ---------- Presentation ----------

  function DropBlanks(s: seq<Byte>): (t: seq<Byte>)
    ensures |t| <= |s|
    ensures t != [] ==> !Blank(t[0])
  {
    if s == [] || !Blank(s[0]) then s else DropBlanks(s[1..])
  }

  /** Past blanks and, if it follows them, the line feed. */
  function DropLine(s: seq<Byte>): (t: seq<Byte>)
    ensures |t| <= |s|
  {
    var t := DropBlanks(s);
    if t != [] && t[0] == NEWLINE then t[1..] else t
  }

  /** Are the spaces in front of both texts presented alike? Blanks are matched one by one, so are line feeds;
      a line feed also takes the place of a run of blanks; where one text has ended, everything goes. */
  predicate GapAlike(s: seq<Byte>, t: seq<Byte>)
    decreases |s| + |t|
  {
    if s == [] || t == [] then true
    else if !Space(s[0]) || !Space(t[0]) then !Space(s[0]) && !Space(t[0])
    else if Blank(s[0]) == Blank(t[0]) then GapAlike(s[1..], t[1..])
    else if Blank(s[0]) then GapAlike(DropLine(s), t[1..])
    else GapAlike(s[1..], DropLine(t))
  }

  predicate InWord(s: seq<Byte>) {
    s != [] && !Space(s[0])
  }

  function AfterWord(s: seq<Byte>): seq<Byte> {
    s[WordLength(s)..]
  }

  /** Are all gaps alike, as far as both texts have words? */
  predicate Alike(s: seq<Byte>, t: seq<Byte>)
    decreases |s|, 1
  {
    GapAlike(s, t) && AlikeFromWord(SkipSpaces(s), SkipSpaces(t))
  }

  /** The same from the first byte of a word. */
  predicate AlikeFromWord(s: seq<Byte>, t: seq<Byte>)
    requires s != [] ==> !Space(s[0])
    decreases |s|, 0
  {
    if s == [] || t == [] then true
    else
      WordAtFront(s);
      Alike(AfterWord(s), AfterWord(t))
  }

  lemma {:induction false} GapAlikeSymmetric(s: seq<Byte>, t: seq<Byte>)
    ensures GapAlike(s, t) == GapAlike(t, s)
    decreases |s| + |t|
  {
    if s != [] && t != [] && Space(s[0]) && Space(t[0]) {
      if Blank(s[0]) == Blank(t[0]) {
        GapAlikeSymmetric(s[1..], t[1..]);
      } else if Blank(s[0]) {
        GapAlikeSymmetric(DropLine(s), t[1..]);
      } else {
        GapAlikeSymmetric(s[1..], DropLine(t));
      }
    }
  }

  /** It does not matter which file comes first. */
  lemma {:induction false} AlikeSymmetric(s: seq<Byte>, t: seq<Byte>)
    ensures Alike(s, t) == Alike(t, s)
    decreases |s|
  {
    GapAlikeSymmetric(s, t);
    var u, v := SkipSpaces(s), SkipSpaces(t);
    if u != [] && v != [] {
      WordAtFront(u);
      WordAtFront(v);
      AlikeSymmetric(AfterWord(u), AfterWord(v));
    }
  }

  lemma SkipFirst(s: seq<Byte>)
    ensures s != [] && Space(s[0]) ==> SkipSpaces(s) == SkipSpaces(s[1..])
    ensures s == [] || !Space(s[0]) ==> SkipSpaces(s) == s
  {
  }

  lemma {:induction false} BlanksSkipped(s: seq<Byte>)
    requires Blanks(s)
    ensures SkipSpaces(s) == []
  {
    if s != [] {
      BlanksSkipped(s[1..]);
    }
  }

  lemma {:induction false} DropBlanksKeeps(s: seq<Byte>, t: seq<Byte>)
    requires t != [] && t[0] == NEWLINE
    ensures SkipSpaces(DropBlanks(s)) == SkipSpaces(s)
    ensures Strip(s) == Strip(t) ==> Strip(DropBlanks(s)) == Strip(t) && DropBlanks(s) != [] && DropBlanks(s)[0] == NEWLINE
  {
    hide Strip;
    SkipFirst(s);
    if s != [] && Blank(s[0]) {
      if Strip(s) == Strip(t) {
        StripSpaces(s, t);
      }
      DropBlanksKeeps(s[1..], t);
    } else if Strip(s) == Strip(t) {
      StripFirst(t);
      StripSpaces(t, s);
      StripNothing();
    }
  }

  /** Texts that agree up to trailing blanks have like gaps, and agree behind them. */
  lemma {:induction false} StrippedGap(s: seq<Byte>, t: seq<Byte>)
    requires Strip(s) == Strip(t)
    ensures GapAlike(s, t) && Strip(SkipSpaces(s)) == Strip(SkipSpaces(t))
    decreases |s| + |t|
  {
    hide Strip, SkipSpaces;
    SkipFirst(s);
    SkipFirst(t);
    StripNothing();
    StripFirst(s);
    StripFirst(t);
    if s == [] {
      BlanksSkipped(t);
    } else if t == [] {
      BlanksSkipped(s);
    } else if Space(s[0]) || Space(t[0]) {
      SpacesTogether(s, t);
      if Blank(s[0]) == Blank(t[0]) {
        StripStep(s, t);
        StrippedGap(s[1..], t[1..]);
      } else if Blank(s[0]) {
        DroppedLine(s, t);
        StrippedGap(DropLine(s), t[1..]);
      } else {
        DroppedLine(t, s);
        StrippedGap(s[1..], DropLine(t));
      }
    }
  }

  lemma SpacesTogether(s: seq<Byte>, t: seq<Byte>)
    requires Strip(s) == Strip(t) && s != [] && t != [] && (Space(s[0]) || Space(t[0]))
    ensures Space(s[0]) && Space(t[0])
  {
    hide Strip;
    if Space(s[0]) {
      StripSpaces(s, t);
    } else {
      StripSpaces(t, s);
    }
  }

  lemma DroppedLine(s: seq<Byte>, t: seq<Byte>)
    requires Strip(s) == Strip(t) && s != [] && Blank(s[0]) && t != [] && t[0] == NEWLINE
    ensures Strip(DropLine(s)) == Strip(t[1..]) && SkipSpaces(DropLine(s)) == SkipSpaces(s)
  {
    hide Strip, SkipSpaces;
    DropBlanksKeeps(s, t);
    StripStep(DropBlanks(s), t);
    SkipFirst(DropBlanks(s));
  }

  lemma {:induction false} StrippedWord(s: seq<Byte>, t: seq<Byte>)
    requires Strip(s) == Strip(t)
    ensures Strip(AfterWord(s)) == Strip(AfterWord(t))
    decreases |s|
  {
    hide Strip;
    StripNothing();
    StripFirst(s);
    StripFirst(t);
    if InWord(s) && InWord(t) {
      StripStep(s, t);
      StrippedWord(s[1..], t[1..]);
      assert AfterWord(s) == AfterWord(s[1..]) && AfterWord(t) == AfterWord(t[1..]);
    } else {
      OutOfWords(s, t);
      assert AfterWord(s) == s && AfterWord(t) == t;
    }
  }

  lemma OutOfWords(s: seq<Byte>, t: seq<Byte>)
    requires Strip(s) == Strip(t) && !(InWord(s) && InWord(t))
    ensures !InWord(s) && !InWord(t)
  {
    hide Strip;
    StripNothing();
    StripFirst(s);
    StripFirst(t);
    if s != [] && t != [] {
      SpacesTogether(s, t);
    }
  }

  /** Texts that agree up to trailing blanks are presented alike. */
  lemma {:induction false} StrippedAlike(s: seq<Byte>, t: seq<Byte>)
    requires Strip(s) == Strip(t)
    ensures Alike(s, t)
    decreases |s|
  {
    StrippedGap(s, t);
    var u, v := SkipSpaces(s), SkipSpaces(t);
    if u != [] && v != [] {
      WordAtFront(u);
      StrippedWord(u, v);
      StrippedAlike(AfterWord(u), AfterWord(v));
    }
  }

  // ---------- The files ----------

  /** An open file, read byte by byte. */
  class Stream {
    const data: seq<Byte>
    var pos: nat

    constructor (data: seq<Byte>)
      ensures this.data == data && pos == 0
    {
      this.data := data;
      pos := 0;
    }

    /** Is c the byte read last, or EOF? */
    ghost predicate At(c: int)
      reads this`pos
    {
      pos <= |data| && (if c == EOF then pos == |data| else 0 <= c < 256)
    }

    /** The byte read last, and what is still to be read. */
    ghost function Left(c: int): seq<Byte>
      reads this`pos
      requires At(c)
    {
      if c == EOF then [] else [c] + data[pos..]
    }

    /** fgetc */
    method Getc() returns (c: int)
      requires pos <= |data|
      modifies this`pos
      ensures At(c) && Left(c) == old(data[pos..])
      ensures forall d | old(At(d)) && d != EOF :: Left(c) == old(Left(d))[1..]
    {
      if pos == |data| {
        return EOF;
      }
      c := data[pos];
      pos := pos + 1;
    }

    /** The next byte after c that is no space. */
    method SkipRun(c: int) returns (d: int)
      requires At(c) && c != EOF
      modifies this`pos
      ensures At(d) && Left(d) == SkipSpaces(old(Left(c))[1..])
    {
      d := Getc();
      while Space(d)
        invariant At(d) && SkipSpaces(Left(d)) == SkipSpaces(old(Left(c))[1..])
        decreases |Left(d)|
      {
        d := Getc();
      }
    }

    /** Past blanks, up to a line feed, a word or the end. */
    method SkipBlanks(c: int) returns (d: int)
      requires At(c)
      modifies this`pos
      ensures At(d) && Left(d) == DropBlanks(old(Left(c)))
    {
      d := c;
      while Space(d) && d != NEWLINE
        invariant At(d) && DropBlanks(Left(d)) == DropBlanks(old(Left(c)))
        decreases |Left(d)|
      {
        d := Getc();
      }
    }

    /** The next byte, if c is a space. */
    method SkipOne(c: int) returns (d: int)
      requires At(c)
      modifies this`pos
      ensures At(d) && Left(d) == if Space(c) then old(Left(c))[1..] else old(Left(c))
    {
      d := c;
      if Space(c) {
        d := Getc();
      }
    }
  }

  lemma {:induction false} DropBlanksSkips(s: seq<Byte>)
    ensures SkipSpaces(DropBlanks(s)) == SkipSpaces(s)
  {
    if s != [] && Blank(s[0]) {
      DropBlanksSkips(s[1..]);
    }
  }

  /** One turn of the loop of find_next_nonspace: a gap that is not alike shows now, or in what is left of it. */
  method FindStep(c1: int, c2: int, f1: Stream, f2: Stream, ret: Verdict) returns (d1: int, d2: int, verdict: Verdict)
    requires f1 != f2 && f1.At(c1) && f2.At(c2) && (Space(c1) || Space(c2))
    modifies f1`pos, f2`pos
    ensures f1.At(d1) && f2.At(d2)
    ensures SkipSpaces(f1.Left(d1)) == SkipSpaces(old(f1.Left(c1))) && SkipSpaces(f2.Left(d2)) == SkipSpaces(old(f2.Left(c2)))
    ensures verdict == ret || verdict == PresentationError
    ensures ret != PresentationError ==>
              (GapAlike(old(f1.Left(c1)), old(f2.Left(c2))) <==> verdict == ret && GapAlike(f1.Left(d1), f2.Left(d2)))
    ensures |f1.Left(d1)| + |f2.Left(d2)| < old(|f1.Left(c1)| + |f2.Left(c2)|)
  {
    hide SkipSpaces, GapAlike, DropBlanks;
    ghost var s, t := f1.Left(c1), f2.Left(c2);
    GapUnfold(s, t);
    SkipFirst(s);
    SkipFirst(t);
    d1, d2, verdict := c1, c2, ret;
    if c1 != c2 {
      if c2 == EOF {
        d1 := f1.SkipRun(c1);
        SkipSpacesTwice(s);
        GapUnfold(f1.Left(d1), t);
        return;
      } else if c1 == EOF {
        d2 := f2.SkipRun(c2);
        SkipSpacesTwice(t);
        GapUnfold(s, f2.Left(d2));
        return;
      } else if Space(c1) && Space(c2) {
        DropBlanksSkips(s);
        DropBlanksSkips(t);
        BlanksDropped(s);
        BlanksDropped(t);
        if c2 == NEWLINE {
          d1 := f1.SkipBlanks(c1);
        }
        if d1 == NEWLINE {
          d2 := f2.SkipBlanks(c2);
        }
      } else {
        verdict := PresentationError;
      }
    }
    SkipFirst(f1.Left(d1));
    SkipFirst(f2.Left(d2));
    d1 := f1.SkipOne(d1);
    d2 := f2.SkipOne(d2);
  }

  lemma GapUnfold(s: seq<Byte>, t: seq<Byte>)
    ensures s == [] || t == [] ==> GapAlike(s, t)
    ensures s != [] && t != [] && Space(s[0]) != Space(t[0]) ==> !GapAlike(s, t)
    ensures s != [] && t != [] && !Space(s[0]) && !Space(t[0]) ==> GapAlike(s, t)
    ensures s != [] && t != [] && Space(s[0]) && Space(t[0]) && Blank(s[0]) == Blank(t[0]) ==>
              GapAlike(s, t) == GapAlike(s[1..], t[1..])
    ensures s != [] && t != [] && Blank(s[0]) && t[0] == NEWLINE ==> GapAlike(s, t) == GapAlike(DropLine(s), t[1..])
    ensures s != [] && t != [] && s[0] == NEWLINE && Blank(t[0]) ==> GapAlike(s, t) == GapAlike(s[1..], DropLine(t))
  {
  }

  lemma BlanksDropped(s: seq<Byte>)
    ensures s != [] && s[0] == NEWLINE ==> DropBlanks(s) == s
    ensures var t := DropBlanks(s);
            DropLine(s) == if t != [] && Space(t[0]) then t[1..] else t
  {
  }

  /** find_next_nonspace: both texts at their next word or at their end; a presentation error exactly if the gap is not alike. */
  method FindNextNonspace(c1: int, c2: int, f1: Stream, f2: Stream, ret: Verdict)
    returns (d1: int, d2: int, verdict: Verdict)
    requires f1 != f2 && f1.At(c1) && f2.At(c2)
    modifies f1`pos, f2`pos
    ensures f1.At(d1) && f2.At(d2)
    ensures f1.Left(d1) == SkipSpaces(old(f1.Left(c1))) && f2.Left(d2) == SkipSpaces(old(f2.Left(c2)))
    ensures verdict == if GapAlike(old(f1.Left(c1)), old(f2.Left(c2))) then ret else PresentationError
  {
    hide SkipSpaces, GapAlike;
    d1, d2, verdict := c1, c2, ret;
    while Space(d1) || Space(d2)
      invariant f1.At(d1) && f2.At(d2)
      invariant SkipSpaces(f1.Left(d1)) == SkipSpaces(old(f1.Left(c1)))
      invariant SkipSpaces(f2.Left(d2)) == SkipSpaces(old(f2.Left(c2)))
      invariant verdict == ret || verdict == PresentationError
      invariant ret != PresentationError ==>
          (GapAlike(old(f1.Left(c1)), old(f2.Left(c2))) <==> verdict == ret && GapAlike(f1.Left(d1), f2.Left(d2)))
      decreases |f1.Left(d1)| + |f2.Left(d2)|
    {
      d1, d2, verdict := FindStep(d1, d2, f1, f2, verdict);
    }
    GapUnfold(f1.Left(d1), f2.Left(d2));
    SkipFirst(f1.Left(d1));
    SkipFirst(f2.Left(d2));
  }

  // ---------- The comparison ----------

  datatype Outcome = BothEnd | Mismatch | Gap

  /** Where words are compared from makes no difference, unless only one text is inside a word. */
  lemma InsideOrNot(s: seq<Byte>, t: seq<Byte>)
    requires !(InWord(s) && t != [] && Space(t[0])) && !(InWord(t) && s != [] && Space(s[0]))
    ensures FromInside(s) == FromInside(t) <==> Words(s) == Words(t)
  {
    hide Words, FromInside;
    Inside(s);
    Inside(t);
    NoWords();
    SameCons(FromInside(s).0, FromInside(s).1, FromInside(t).0, FromInside(t).1);
  }

  lemma SameCons<T>(a: T, s: seq<T>, b: T, t: seq<T>)
    ensures [a] + s == [b] + t <==> a == b && s == t
  {
    assert ([a] + s)[0] == a && ([a] + s)[1..] == s;
    assert ([b] + t)[0] == b && ([b] + t)[1..] == t;
  }

  lemma Inside(s: seq<Byte>)
    ensures InWord(s) ==> Words(s) == [FromInside(s).0] + FromInside(s).1 && FromInside(s).0 != []
    ensures !InWord(s) ==> FromInside(s) == ([], Words(s))
  {
    hide Words;
    if InWord(s) {
      FromInsideStep(s);
    } else {
      FromInsideSpace(s);
    }
  }

  lemma InsideStep(s: seq<Byte>, t: seq<Byte>)
    requires InWord(s) || InWord(t)
    requires s != [] && t != []
    ensures s[0] != t[0] ==> FromInside(s) != FromInside(t)
    ensures s[0] == t[0] ==> (FromInside(s) == FromInside(t) <==> FromInside(s[1..]) == FromInside(t[1..]))
  {
    hide Words;
    if InWord(s) {
      FromInsideStep(s);
    } else {
      FromInsideSpace(s);
    }
    if InWord(t) {
      FromInsideStep(t);
    } else {
      FromInsideSpace(t);
    }
    hide FromInside;
    SameCons(s[0], FromInside(s[1..]).0, t[0], FromInside(t[1..]).0);
  }

  lemma AfterWordStep(s: seq<Byte>)
    ensures InWord(s) ==> AfterWord(s) == AfterWord(s[1..])
    ensures !InWord(s) ==> AfterWord(s) == s
  {
  }

  /** The loop over two words, up to a space in both texts or an end. */
  method CompareWord(c1: int, c2: int, f1: Stream, f2: Stream) returns (d1: int, d2: int, outcome: Outcome)
    requires f1 != f2 && f1.At(c1) && f2.At(c2)
    modifies f1`pos, f2`pos
    ensures f1.At(d1) && f2.At(d2)
    ensures FromInside(old(f1.Left(c1))) == FromInside(old(f2.Left(c2))) <==> FromInside(f1.Left(d1)) == FromInside(f2.Left(d2))
    ensures AfterWord(f1.Left(d1)) == AfterWord(old(f1.Left(c1))) && AfterWord(f2.Left(d2)) == AfterWord(old(f2.Left(c2)))
    ensures |f1.Left(d1)| <= old(|f1.Left(c1)|) && |f2.Left(d2)| <= old(|f2.Left(c2)|)
    ensures outcome == BothEnd ==> d1 == EOF && d2 == EOF
    ensures outcome == Mismatch ==> FromInside(f1.Left(d1)) != FromInside(f2.Left(d2))
    ensures outcome == Gap ==> ((Space(d1) && Space(d2)) || ((d1 == EOF) != (d2 == EOF)))
    ensures outcome == Gap && c1 != EOF && c2 != EOF && !Space(c1) ==> |f1.Left(d1)| < old(|f1.Left(c1)|)
  {
    hide FromInside, AfterWord;
    d1, d2 := c1, c2;
    while !Space(d1) || !Space(d2)
      invariant f1.At(d1) && f2.At(d2)
      invariant FromInside(old(f1.Left(c1))) == FromInside(old(f2.Left(c2))) <==> FromInside(f1.Left(d1)) == FromInside(f2.Left(d2))
      invariant AfterWord(f1.Left(d1)) == AfterWord(old(f1.Left(c1))) && AfterWord(f2.Left(d2)) == AfterWord(old(f2.Left(c2)))
      invariant |f1.Left(d1)| <= old(|f1.Left(c1)|) && |f2.Left(d2)| <= old(|f2.Left(c2)|)
      invariant d1 == c1 || |f1.Left(d1)| < old(|f1.Left(c1)|)
      invariant |f1.Left(d1)| == old(|f1.Left(c1)|) ==> d1 == c1 && d2 == c2
      decreases |f1.Left(d1)|
    {
      if d1 == EOF && d2 == EOF {
        return d1, d2, BothEnd;
      }
      if d1 == EOF || d2 == EOF {
        break;
      }
      InsideStep(f1.Left(d1), f2.Left(d2));
      if d1 != d2 {
        return d1, d2, Mismatch;
      }
      AfterWordStep(f1.Left(d1));
      AfterWordStep(f2.Left(d2));
      d1 := f1.Getc();
      d2 := f2.Getc();
    }
    outcome := Gap;
  }

  /** The verdict on two texts. */
  function VerdictOf(s: seq<Byte>, t: seq<Byte>): Verdict {
    if Words(s) != Words(t) then WrongAnswer
    else if Alike(s, t) then Accepted
    else PresentationError
  }

  /** compare_zoj on two open files. After find_next_nonspace no cursor is on a line feed, so the loop over lines has one turn. */
  method CompareStreams(f1: Stream, f2: Stream) returns (ret: Verdict)
    requires f1 != f2 && f1.pos == 0 && f2.pos == 0
    modifies f1`pos, f2`pos
    ensures ret == VerdictOf(f1.data, f2.data)
  {
    hide FromInside, Words, AfterWord, GapAlike, AlikeFromWord, SkipSpaces;
    ret := Accepted;
    ghost var same, alike := Words(f1.data) == Words(f2.data), Alike(f1.data, f2.data);
    SkipSpacesTwice(f1.data);
    SkipSpacesTwice(f2.data);
    var c1 := f1.Getc();
    var c2 := f2.Getc();
    assert f1.Left(c1) == f1.data && f2.Left(c2) == f2.data;
    c1, c2, ret := FindNextNonspace(c1, c2, f1, f2, ret);
    while true
      invariant f1.At(c1) && f2.At(c2) && !Space(c1) && !Space(c2)
      invariant same <==> Words(f1.Left(c1)) == Words(f2.Left(c2))
      invariant ret == Accepted || ret == PresentationError
      invariant alike <==> ret == Accepted && AlikeFromWord(f1.Left(c1), f2.Left(c2))
      decreases |f1.Left(c1)|
    {
      ghost var s, t := f1.Left(c1), f2.Left(c2);
      InsideOrNot(s, t);
      FromWord(s, t);
      NoWords();
      Inside(s);
      Inside(t);
      var outcome;
      c1, c2, outcome := CompareWord(c1, c2, f1, f2);
      AfterWordStep(f1.Left(c1));
      AfterWordStep(f2.Left(c2));
      if outcome == BothEnd {
        NothingAlike();
        return;
      }
      if outcome == Mismatch {
        ret := WrongAnswer;
        return;
      }
      InsideOrNot(f1.Left(c1), f2.Left(c2));
      SkipSpacesTwice(f1.Left(c1));
      SkipSpacesTwice(f2.Left(c2));
      SkipFirst(f1.Left(c1));
      SkipFirst(f2.Left(c2));
      c1, c2, ret := FindNextNonspace(c1, c2, f1, f2, ret);
      NoWords();
      Inside(f1.Left(c1));
      Inside(f2.Left(c2));
      FromWord(f1.Left(c1), f2.Left(c2));
      if c1 == EOF && c2 == EOF {
        return;
      }
      if c1 == EOF || c2 == EOF {
        ret := WrongAnswer;
        return;
      }
    }
  }

  lemma FromWord(s: seq<Byte>, t: seq<Byte>)
    requires s != [] ==> !Space(s[0])
    ensures s == [] || t == [] ==> AlikeFromWord(s, t)
    ensures s != [] && t != [] ==> AlikeFromWord(s, t) == Alike(AfterWord(s), AfterWord(t))
  {
  }

  lemma NothingAlike()
    ensures Alike([], [])
  {
  }

  /** compare_zoj on the contents of two files, or none for a file that does not open. */
  method CompareFiles(file1: Option<seq<Byte>>, file2: Option<seq<Byte>>) returns (ret: Verdict)
    ensures ret == if file1.Some? && file2.Some? then VerdictOf(file1.value, file2.value) else RuntimeError
  {
    if file1.None? || file2.None? {
      return RuntimeError;
    }
    var f1 := new Stream(file1.value);
    var f2 := new Stream(file2.value);
    ret := CompareStreams(f1, f2);
  }

  // ---------- Like gaps, without stepping through them ----------

  /** Blanks at the front. */
  function Lead(s: seq<Byte>): nat {
    |s| - |DropBlanks(s)|
  }

  /** Line feeds among the spaces at the front. */
  function Feeds(s: seq<Byte>): nat {
    if s == [] || !Space(s[0]) then 0 else (if s[0] == NEWLINE then 1 else 0) + Feeds(s[1..])
  }

  lemma {:induction false} DropLineShorter(s: seq<Byte>)
    requires Feeds(s) > 0
    ensures |DropLine(s)| < |s|
  {
    if Blank(s[0]) {
      DropLineShorter(s[1..]);
    }
  }

  /** Blanks in the last line of the spaces at the front: what stands in front of a word on its own line. */
  function Trailing(s: seq<Byte>): nat
    decreases |s|
  {
    if Feeds(s) == 0 then Lead(s)
    else
      DropLineShorter(s);
      Trailing(DropLine(s))
  }

  /** Blanks in the line in front of it, which a line feed ends. */
  function LastLine(s: seq<Byte>): nat
    decreases |s|
  {
    if Feeds(s) <= 1 then Lead(s)
    else
      DropLineShorter(s);
      LastLine(DropLine(s))
  }

  /** t has a line feed more than s, directly in front of its word, and a shorter line in front of that. */
  predicate OneFeedMore(s: seq<Byte>, t: seq<Byte>) {
    Feeds(t) == Feeds(s) + 1 && Trailing(t) == 0 && LastLine(t) < Trailing(s)
  }

  /** As many line feeds and the same blanks in front of the word; or one line feed stands for blanks. */
  predicate LikeRuns(s: seq<Byte>, t: seq<Byte>) {
    (Feeds(s) == Feeds(t) && Trailing(s) == Trailing(t)) || OneFeedMore(s, t) || OneFeedMore(t, s)
  }

  lemma DropFirst(s: seq<Byte>)
    requires s != []
    ensures Blank(s[0]) ==> DropBlanks(s) == DropBlanks(s[1..]) && DropLine(s) == DropLine(s[1..]) && Lead(s) == 1 + Lead(s[1..])
    ensures s[0] == NEWLINE ==> DropLine(s) == s[1..] && Lead(s) == 0
    ensures !Space(s[0]) ==> Lead(s) == 0 && DropLine(s) == s
  {
  }

  /** One blank less at the front. */
  lemma BlankFirst(s: seq<Byte>)
    requires s != [] && Blank(s[0])
    ensures Feeds(s) == Feeds(s[1..])
    ensures Trailing(s) == (if Feeds(s) == 0 then 1 else 0) + Trailing(s[1..])
    ensures LastLine(s) == (if Feeds(s) <= 1 then 1 else 0) + LastLine(s[1..])
  {
    DropFirst(s);
  }

  lemma {:induction false} FeedsDropped(s: seq<Byte>)
    requires Feeds(s) > 0
    ensures Feeds(DropLine(s)) == Feeds(s) - 1
    ensures SkipSpaces(DropLine(s)) == SkipSpaces(s)
  {
    DropFirst(s);
    if Blank(s[0]) {
      FeedsDropped(s[1..]);
    }
  }

  /** One line less at the front. */
  lemma LineFirst(s: seq<Byte>)
    requires Feeds(s) > 0
    ensures Feeds(DropLine(s)) == Feeds(s) - 1 && Trailing(s) == Trailing(DropLine(s))
    ensures Feeds(s) > 1 ==> LastLine(s) == LastLine(DropLine(s))
    ensures SkipSpaces(DropLine(s)) == SkipSpaces(s)
  {
    FeedsDropped(s);
  }

  lemma LikeLines(s: seq<Byte>, t: seq<Byte>)
    requires Feeds(s) > 0 && Feeds(t) > 0
    ensures LikeRuns(s, t) <==> LikeRuns(DropLine(s), DropLine(t))
  {
    hide Feeds, Trailing, LastLine, DropLine;
    LineFirst(s);
    LineFirst(t);
  }

  lemma LikeBlanks(s: seq<Byte>, t: seq<Byte>)
    requires s != [] && t != [] && Blank(s[0]) && Blank(t[0])
    ensures LikeRuns(s, t) <==> LikeRuns(s[1..], t[1..])
  {
    hide Feeds, Trailing, LastLine;
    BlankFirst(s);
    BlankFirst(t);
  }

  lemma {:induction false} NoFeeds(s: seq<Byte>)
    requires Feeds(s) == 0
    ensures DropBlanks(s) == SkipSpaces(s) && DropLine(s) == SkipSpaces(s)
  {
    if s != [] && Space(s[0]) {
      NoFeeds(s[1..]);
    }
  }

  /** In front of a word there is nothing to skip. */
  lemma AtWord(s: seq<Byte>)
    requires s != [] && !Space(s[0])
    ensures Feeds(s) == 0 && Trailing(s) == 0 && SkipSpaces(s) == s
  {
    DropFirst(s);
  }

  lemma SpaceFirst(s: seq<Byte>)
    requires s != [] && Space(s[0])
    ensures Feeds(s) > 0 || Trailing(s) > 0
    ensures s[0] == NEWLINE ==> Feeds(s) == 1 + Feeds(s[1..]) && DropLine(s) == s[1..] && Lead(s) == 0
  {
    DropFirst(s);
  }

  /** A line feed against blanks that a word ends. */
  lemma FeedAgainstBlanks(s: seq<Byte>, t: seq<Byte>)
    requires s != [] && Blank(s[0]) && Feeds(s) == 0 && t != [] && t[0] == NEWLINE
    requires SkipSpaces(s) != [] && SkipSpaces(t) != []
    ensures LikeRuns(s, t) <==> GapAlike(DropLine(s), t[1..])
  {
    hide Feeds, Trailing, LastLine, DropLine, GapAlike;
    NoFeeds(s);
    SpaceFirst(t);
    LineFirst(t);
    SpaceFirst(s);
    var u, v := DropLine(s), t[1..];
    GapUnfold(u, v);
    LastOfOne(t);
    SkipSpacesTwice(s);
    if Space(v[0]) {
      SpaceFirst(v);
    } else {
      AtWord(v);
    }
  }

  lemma LastOfOne(t: seq<Byte>)
    requires t != [] && t[0] == NEWLINE
    ensures Feeds(t) == 1 ==> LastLine(t) == 0
  {
    DropFirst(t);
  }

  /** In front of words on both sides, gaps are alike exactly if the two runs of spaces are. */
  lemma {:induction false} GapIsRuns(s: seq<Byte>, t: seq<Byte>)
    requires SkipSpaces(s) != [] && SkipSpaces(t) != []
    ensures GapAlike(s, t) <==> LikeRuns(s, t)
    decreases |s| + |t|
  {
    hide GapAlike, Feeds, Trailing, LastLine, DropLine, LikeRuns, SkipSpaces;
    SkipFirst(s);
    SkipFirst(t);
    SkipNothing();
    GapUnfold(s, t);
    if !Space(s[0]) || !Space(t[0]) {
      RunsAtWord(s, t);
    } else if Blank(s[0]) && Blank(t[0]) {
      LikeBlanks(s, t);
      GapIsRuns(s[1..], t[1..]);
    } else if !Blank(s[0]) && !Blank(t[0]) {
      SpaceFirst(s);
      SpaceFirst(t);
      LikeLines(s, t);
      GapIsRuns(s[1..], t[1..]);
    } else if Blank(s[0]) {
      SpaceFirst(t);
      if Feeds(s) == 0 {
        FeedAgainstBlanks(s, t);
      } else {
        LikeLines(s, t);
        LineFirst(s);
        DropLineShorter(s);
        GapIsRuns(DropLine(s), t[1..]);
      }
    } else {
      GapAlikeSymmetric(s, t);
      LikeRunsSymmetric(s, t);
      SpaceFirst(s);
      if Feeds(t) == 0 {
        FeedAgainstBlanks(t, s);
        GapUnfold(t, s);
      } else {
        LikeLines(s, t);
        LineFirst(t);
        DropLineShorter(t);
        GapIsRuns(s[1..], DropLine(t));
      }
    }
  }

  lemma SkipNothing()
    ensures SkipSpaces([]) == []
  {
  }

  lemma LikeRunsSymmetric(s: seq<Byte>, t: seq<Byte>)
    ensures LikeRuns(s, t) == LikeRuns(t, s)
  {
  }

  lemma RunsAtWord(s: seq<Byte>, t: seq<Byte>)
    requires s != [] && t != [] && (!Space(s[0]) || !Space(t[0]))
    ensures LikeRuns(s, t) <==> !Space(s[0]) && !Space(t[0])
  {
    hide Feeds, Trailing, LastLine;
    if !Space(s[0]) {
      AtWord(s);
    } else {
      SpaceFirst(s);
    }
    if !Space(t[0]) {
      AtWord(t);
    } else {
      SpaceFirst(t);
    }
  }

  /** Behind the last word everything is alike. */
  lemma {:induction false} EndsAlike(s: seq<Byte>, t: seq<Byte>)
    requires SkipSpaces(s) == [] && SkipSpaces(t) == []
    ensures GapAlike(s, t)
    decreases |s| + |t|
  {
    hide GapAlike;
    GapUnfold(s, t);
    if s != [] && t != [] {
      if Blank(s[0]) == Blank(t[0]) {
        EndsAlike(s[1..], t[1..]);
      } else if Blank(s[0]) {
        LineSkipped(s);
        EndsAlike(DropLine(s), t[1..]);
      } else {
        LineSkipped(t);
        EndsAlike(s[1..], DropLine(t));
      }
    }
  }

  lemma {:induction false} LineSkipped(s: seq<Byte>)
    ensures SkipSpaces(DropLine(s)) == SkipSpaces(s)
  {
    hide SkipSpaces;
    DropBlanksSkips(s);
    SkipFirst(DropBlanks(s));
  }

  /** Do the runs of spaces in front of each pair of words correspond? */
  predicate SameLayout(s: seq<Byte>, t: seq<Byte>)
    decreases |s|
  {
    var u, v := SkipSpaces(s), SkipSpaces(t);
    if u == [] || v == [] then true
    else
      WordAtFront(u);
      LikeRuns(s, t) && SameLayout(AfterWord(u), AfterWord(v))
  }

  /** Accepted exactly if the words agree and the spaces in front of each correspond. */
  lemma AcceptedExactly(s: seq<Byte>, t: seq<Byte>)
    ensures VerdictOf(s, t) == Accepted <==> Words(s) == Words(t) && SameLayout(s, t)
  {
    if Words(s) == Words(t) {
      LayoutIsAlike(s, t);
    }
  }

  lemma {:induction false} LayoutIsAlike(s: seq<Byte>, t: seq<Byte>)
    requires Words(s) == Words(t)
    ensures Alike(s, t) <==> SameLayout(s, t)
    decreases |s|
  {
    hide GapAlike, LikeRuns, Words;
    var u, v := SkipSpaces(s), SkipSpaces(t);
    SkipSpacesTwice(s);
    SkipSpacesTwice(t);
    Inside(u);
    Inside(v);
    NoWords();
    if u == [] {
      EndsAlike(s, t);
    } else {
      WordAtFront(u);
      GapIsRuns(s, t);
      SameCons(FromInside(u).0, FromInside(u).1, FromInside(v).0, FromInside(v).1);
      LayoutIsAlike(AfterWord(u), AfterWord(v));
    }
  }

  // ---------- What the verdict means ----------

  /** Texts that agree up to trailing blanks are accepted. */
  lemma StrippedAccepted(s: seq<Byte>, t: seq<Byte>)
    requires Strip(s) == Strip(t)
    ensures VerdictOf(s, t) == Accepted
  {
    StripWords(s);
    StripWords(t);
    StrippedAlike(s, t);
  }

  /** So is a copy with blanks put in before a line feed or the end. */
  lemma InsertedAccepted(a: seq<Byte>, b: seq<Byte>, c: seq<Byte>)
    requires Blanks(b) && (c == [] || c[0] == NEWLINE)
    ensures VerdictOf(a + c, a + b + c) == Accepted
  {
    StripInserted(a, b, c);
    StrippedAccepted(a + c, a + b + c);
  }

  lemma VerdictSymmetric(s: seq<Byte>, t: seq<Byte>)
    ensures VerdictOf(s, t) == VerdictOf(t, s)
  {
    AlikeSymmetric(s, t);
  }

  /** Words can agree and the verdict still be a presentation error: a blank too many inside a line. */
  lemma InnerBlank()
    ensures VerdictOf([97, 32, 98], [97, 32, 32, 98]) == PresentationError
  {
    var s: seq<Byte>, t: seq<Byte> := [97, 32, 98], [97, 32, 32, 98];
    assert s[1..] == [32, 98] && t[1..] == [32, 32, 98];
    assert s[1..][1..] == [98] && t[1..][1..] == [32, 98] && t[1..][1..][1..] == [98];
    assert WordLength(s) == 1 && WordLength(t) == 1 && AfterWord(s) == s[1..] && AfterWord(t) == t[1..];
    assert !GapAlike([98], [32, 98]);
    assert !GapAlike(s[1..], t[1..]);
    assert !Alike(s, t);
    assert Words([98]) == [[98]] by {
      var u: seq<Byte> := [98];
      assert u[1..] == [] && WordLength(u) == 1 && u[..1] == u && u[1..] == [];
      assert Words([]) == [];
    }
    WordsOfSpace(s[1..]);
    WordsOfSpace(t[1..]);
    WordsOfSpace(t[1..][1..]);
    assert s[..1] == t[..1];
    WordsUnfold(s);
    WordsUnfold(t);
  }
}
