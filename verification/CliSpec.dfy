/** Which command lines a row of typed words stands for, and the tree of views. */
module CliSpec {
  import opened Options

  datatype Kind = Key | Integer | Text | Ip | Mac | End

  datatype Element = Element(kind: Kind, name: string)

  /** A registered command: its view and its elements, the last one usually the carriage return. */
  datatype Line = Line(view: nat, elements: seq<Element>)

  /** A parameter's own test of a typed word: cmd_match_command_param. */
  type Check = (string, Element) -> bool

  const VIEW_NULL: nat := 0
  const VIEW_GLOBAL: nat := 1
  const VIEW_USER: nat := 2

  const CR: string := "<cr>"

  // ---------- Words and elements ----------

  function Lower(c: char): char {
    if 'A' <= c <= 'Z' then c + 0x20 as char else c
  }

  function LowerAll(s: string): (t: string)
    ensures |t| == |s|
  {
    seq(|s|, i requires 0 <= i < |s| => Lower(s[i]))
  }

  /** At most n bytes of a C string. */
  function Take(s: string, n: nat): string {
    if n <= |s| then s[..n] else s
  }

  /** Is word a prefix of name when case does not matter? */
  predicate Abbreviates(word: string, name: string) {
    |word| <= |name| && LowerAll(word) == LowerAll(name[..|word|])
  }

  predicate Accepts(word: string, e: Element, check: Check) {
    check(word, e) || Abbreviates(word, e.name)
  }

  /** May the word at place i stand for the element of the line there? The carriage return is not tested. */
  predicate Fits(line: Line, word: string, i: nat, check: Check) {
    word == CR || (word != "" && i < |line.elements| && Accepts(word, line.elements[i], check))
  }

  predicate InView(line: Line, view: nat) {
    line.view == VIEW_GLOBAL || line.view == view
  }

  /** Does every one of the first n words fit? */
  predicate FitsAll(line: Line, words: seq<string>, n: nat, check: Check)
    requires n <= |words|
  {
    forall i | 0 <= i < n :: Fits(line, words[i], i, check)
  }

  /** A line of the view with as many elements as words, each fitted by its word; the last one is always tested. */
  predicate Matches(line: Line, words: seq<string>, view: nat, check: Check)
    requires words != []
  {
    var n := |words|;
    InView(line, view) && |line.elements| == n && FitsAll(line, words, n, check)
    && Accepts(words[n - 1], line.elements[n - 1], check)
  }

  /** All matches, in the order of registration. */
  function MatchList(lines: seq<Line>, words: seq<string>, view: nat, check: Check): seq<Line>
    requires words != []
  {
    if lines == [] then []
    else
      MatchList(lines[..|lines| - 1], words, view, check)
      + if Matches(lines[|lines| - 1], words, view, check) then [lines[|lines| - 1]] else []
  }

  lemma {:induction false} MatchListMember(lines: seq<Line>, words: seq<string>, view: nat, check: Check, line: Line)
    requires words != []
    ensures line in MatchList(lines, words, view, check) <==> line in lines && Matches(line, words, view, check)
  {
    hide Matches;
    if lines != [] {
      var last := lines[|lines| - 1];
      MatchListMember(lines[..|lines| - 1], words, view, check, line);
      assert lines == lines[..|lines| - 1] + [last];
    }
  }

  /** What one would expect of a match: every word is accepted at its place. */
  ghost predicate AcceptsEach(line: Line, words: seq<string>, view: nat, check: Check) {
    InView(line, view) && |line.elements| == |words|
    && forall i | 0 <= i < |words| :: Accepts(words[i], line.elements[i], check)
  }

  /** Is that what a match is, for every line? */
  ghost predicate MatchesAreExact(words: seq<string>, view: nat, check: Check)
    requires words != []
  {
    forall line :: Matches(line, words, view, check) <==> AcceptsEach(line, words, view, check)
  }

  predicate NoEmptyWord(words: seq<string>) {
    forall i | 0 <= i < |words| :: words[i] != ""
  }

  /** No carriage return is typed in front of the last word. */
  predicate NoTypedReturn(words: seq<string>) {
    forall i | 0 <= i < |words| - 1 :: words[i] != CR
  }

  lemma MatchesExactly(line: Line, words: seq<string>, view: nat, check: Check)
    requires words != [] && NoEmptyWord(words)
    requires NoTypedReturn(words) || forall e :: Accepts(CR, e, check)
    ensures Matches(line, words, view, check) <==> AcceptsEach(line, words, view, check)
  {
    hide Accepts;
    if Matches(line, words, view, check) {
      forall i | 0 <= i < |words|
        ensures Accepts(words[i], line.elements[i], check)
      {
        assert Fits(line, words[i], i, check);
      }
    }
  }

  /** A keyword of its own for every word, but the element e where a return was typed. */
  function Witness(words: seq<string>, view: nat, e: Element): Line {
    Line(view, seq(|words|, i requires 0 <= i < |words| => if i < |words| - 1 && words[i] == CR then e else Element(Key, words[i])))
  }

  lemma AbbreviatesItself(word: string)
    ensures Abbreviates(word, word)
  {
    assert word[..|word|] == word;
  }

  lemma WitnessMatches(words: seq<string>, view: nat, check: Check, e: Element)
    requires words != [] && NoEmptyWord(words)
    ensures Matches(Witness(words, view, e), words, view, check)
  {
    var line := Witness(words, view, e);
    forall i | 0 <= i < |words|
      ensures Fits(line, words[i], i, check)
    {
      AbbreviatesItself(words[i]);
    }
    AbbreviatesItself(words[|words| - 1]);
  }

  lemma EmptyWordMatchesNothing(words: seq<string>, view: nat, check: Check)
    requires words != [] && !NoEmptyWord(words)
    ensures !MatchesAreExact(words, view, check)
  {
    var i :| 0 <= i < |words| && words[i] == "";
    var line := Line(view, seq(|words|, k requires 0 <= k < |words| => Element(Key, words[k])));
    assert !Fits(line, words[i], i, check);
    forall k | 0 <= k < |words|
      ensures Accepts(words[k], line.elements[k], check)
    {
      AbbreviatesItself(words[k]);
    }
    assert AcceptsEach(line, words, view, check);
  }

  lemma TypedReturnNotExact(words: seq<string>, view: nat, check: Check, e: Element)
    requires words != [] && NoEmptyWord(words) && !NoTypedReturn(words) && !Accepts(CR, e, check)
    ensures !MatchesAreExact(words, view, check)
  {
    var i :| 0 <= i < |words| - 1 && words[i] == CR;
    var line := Witness(words, view, e);
    WitnessMatches(words, view, check, e);
    assert line.elements[i] == e && !Accepts(words[i], line.elements[i], check);
  }

  /** Exactly when a match accepts each word at its place: no word is empty, and no carriage return is typed in
      front of the last word, unless every element takes one. */
  lemma MatchesExactlyWhen(words: seq<string>, view: nat, check: Check)
    requires words != []
    ensures MatchesAreExact(words, view, check)
       <==> NoEmptyWord(words) && (NoTypedReturn(words) || forall e :: Accepts(CR, e, check))
  {
    hide Matches, AcceptsEach, Accepts;
    if !NoEmptyWord(words) {
      EmptyWordMatchesNothing(words, view, check);
    } else if NoTypedReturn(words) || forall e :: Accepts(CR, e, check) {
      forall line
        ensures Matches(line, words, view, check) <==> AcceptsEach(line, words, view, check)
      {
        MatchesExactly(line, words, view, check);
      }
    } else {
      var e :| !Accepts(CR, e, check);
      TypedReturnNotExact(words, view, check, e);
    }
  }

  /** With a single element that does not take a carriage return, the typed returns alone decide. */
  lemma MatchesExactlyUnlessReturn(words: seq<string>, view: nat, check: Check, e: Element)
    requires words != [] && NoEmptyWord(words) && !Accepts(CR, e, check)
    ensures MatchesAreExact(words, view, check) <==> NoTypedReturn(words)
  {
    hide Accepts, MatchesAreExact;
    MatchesExactlyWhen(words, view, check);
  }

  /** An instance: two lines that differ where a carriage return was typed both match. */
  lemma TypedReturnMatchesAnything(check: Check)
    ensures var words := [CR, CR];
            var a, b := Line(VIEW_GLOBAL, [Element(Key, "a"), Element(End, CR)]), Line(VIEW_GLOBAL, [Element(Key, "b"), Element(End, CR)]);
            MatchList([a, b], words, VIEW_USER, check) == [a, b] && !Abbreviates(CR, "a") && !Abbreviates(CR, "b")
  {
    var words := [CR, CR];
    var a, b := Line(VIEW_GLOBAL, [Element(Key, "a"), Element(End, CR)]), Line(VIEW_GLOBAL, [Element(Key, "b"), Element(End, CR)]);
    assert CR[..4] == CR && Abbreviates(CR, CR);
    assert [a, b][..1] == [a] && [a][..0] == [];
    assert MatchList([], words, VIEW_USER, check) == [];
    assert MatchList([a], words, VIEW_USER, check) == [a];
  }

  // ---------- Views ----------

  datatype View = View(id: nat, sons: seq<View>)

  /** Depth first: the id of the parent of the first view with this id. */
  function FindParent(v: View, parent: nat, id: nat): Option<nat>
    decreases v, 1
  {
    if v.id == id then Some(parent) else FindParentIn(v.sons, v.id, id)
  }

  function FindParentIn(sons: seq<View>, parent: nat, id: nat): Option<nat>
    decreases sons, 0
  {
    if sons == [] then None
    else
      var r := FindParent(sons[0], parent, id);
      if r.Some? then r else FindParentIn(sons[1..], parent, id)
  }

  /** cmd_view_get_parent_view_id: the root has none, nor has an id that is in no view. */
  function ParentId(tree: View, id: nat): nat {
    var r := FindParent(tree, VIEW_NULL, id);
    if r.Some? then r.value else VIEW_NULL
  }

  /** The ids in depth-first order. */
  function Ids(v: View): (s: seq<nat>)
    ensures |s| > 0
    decreases v, 1
  {
    [v.id] + IdsIn(v.sons)
  }

  function IdsIn(sons: seq<View>): seq<nat>
    decreases sons, 0
  {
    if sons == [] then [] else Ids(sons[0]) + IdsIn(sons[1..])
  }

  /** Where an id is found first; the length if it is not there. */
  function First(s: seq<nat>, id: nat): (n: nat)
    ensures n <= |s|
    ensures n < |s| ==> s[n] == id
    ensures forall i | 0 <= i < n :: s[i] != id
  {
    if s == [] || s[0] == id then 0 else 1 + First(s[1..], id)
  }

  lemma FirstConcat(s: seq<nat>, t: seq<nat>, id: nat)
    ensures First(s + t, id) == if First(s, id) < |s| then First(s, id) else |s| + First(t, id)
  {
    if s == [] {
      assert s + t == t;
    } else {
      assert (s + t)[1..] == s[1..] + t;
    }
  }

  /** A parent that is found is the one handed down, or stands earlier in the order. */
  lemma {:induction false} FindParentEarlier(v: View, parent: nat, id: nat)
    ensures FindParent(v, parent, id).Some? <==> First(Ids(v), id) < |Ids(v)|
    ensures var r := FindParent(v, parent, id);
            r.Some? && v.id != id ==> First(Ids(v), r.value) < First(Ids(v), id)
    decreases v, 1
  {
    FindParentInEarlier(v.sons, v.id, id);
    var r := FindParentIn(v.sons, v.id, id);
    var s := IdsIn(v.sons);
    assert ([v.id] + s)[1..] == s;
    if v.id != id && r.Some? && r.value != v.id {
      assert First(Ids(v), r.value) == 1 + First(s, r.value);
    }
  }

  lemma {:induction false} FindParentInEarlier(sons: seq<View>, parent: nat, id: nat)
    ensures FindParentIn(sons, parent, id).Some? <==> First(IdsIn(sons), id) < |IdsIn(sons)|
    ensures var r := FindParentIn(sons, parent, id);
            r.Some? && r.value != parent ==> First(IdsIn(sons), r.value) < First(IdsIn(sons), id)
    decreases sons, 0
  {
    if sons != [] {
      var a, b := Ids(sons[0]), IdsIn(sons[1..]);
      FindParentEarlier(sons[0], parent, id);
      FindParentInEarlier(sons[1..], parent, id);
      FirstConcat(a, b, id);
      var r := FindParentIn(sons, parent, id);
      if r.Some? {
        FirstConcat(a, b, r.value);
      }
    }
  }

  /** Going up, the order falls: climbing ends. */
  lemma ParentEarlier(tree: View, id: nat)
    ensures ParentId(tree, id) != VIEW_NULL ==> First(Ids(tree), ParentId(tree, id)) < First(Ids(tree), id)
  {
    FindParentEarlier(tree, VIEW_NULL, id);
  }

  /** A view where climbing stops: there is none, or it is the user view or the global one. */
  predicate Stops(view: nat) {
    view == VIEW_NULL || view == VIEW_USER || view == VIEW_GLOBAL
  }

  /** The first view, from this one on up, in which the words match exactly one line. */
  function Resolve(tree: View, lines: seq<Line>, words: seq<string>, view: nat, check: Check): Option<nat>
    requires words != []
    decreases First(Ids(tree), view)
  {
    if |MatchList(lines, words, view, check)| == 1 then Some(view)
    else
      var p := ParentId(tree, view);
      if Stops(p) then None
      else
        ParentEarlier(tree, view);
        Resolve(tree, lines, words, p, check)
  }
}
