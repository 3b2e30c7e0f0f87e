/** What the command matcher's definitions come to, word by word and view by view. */
module CliMeaning {
  import opened Options
  import opened CliSpec
  import opened Cli

  // ---------- Words ----------

  /** The same byte, or the two cases of one letter. */
  predicate SameLetter(c: char, d: char) {
    c == d || ('A' <= c <= 'Z' && d as int == c as int + 32) || ('A' <= d <= 'Z' && c as int == d as int + 32)
  }

  lemma LettersSame(c: char, d: char)
    ensures Lower(c) == Lower(d) <==> SameLetter(c, d)
  {
  }

  /** The word is the start of the name, up to case. */
  predicate StartOf(word: string, name: string) {
    |word| <= |name| && forall i | 0 <= i < |word| :: SameLetter(word[i], name[i])
  }

  lemma AbbreviatesIs(word: string, name: string)
    ensures Abbreviates(word, name) <==> StartOf(word, name)
  {
    if |word| <= |name| {
      var x, y := LowerAll(word), LowerAll(name[..|word|]);
      forall i | 0 <= i < |word|
        ensures x[i] == y[i] <==> SameLetter(word[i], name[i])
      {
        LettersSame(word[i], name[i]);
      }
    }
  }

  /** A line matches exactly if it belongs to the global view, which is 1, or to the terminal's, has as many elements as
      there are words, and each word is accepted at its place: by the parameter's own test or as the start of the
      element's name. In front of the last word a typed return stands for anything. No word is empty. */
  lemma MatchIs(line: Line, words: seq<string>, view: nat, check: Check)
    requires words != []
    ensures Matches(line, words, view, check) <==>
            && (line.view == 1 || line.view == view) && |line.elements| == |words|
            && forall i | 0 <= i < |words| ::
                 words[i] != ""
                 && (check(words[i], line.elements[i]) || StartOf(words[i], line.elements[i].name)
                     || (words[i] == "<cr>" && i < |words| - 1))
  {
    if |line.elements| == |words| {
      forall i | 0 <= i < |words|
        ensures Accepts(words[i], line.elements[i], check) <==> check(words[i], line.elements[i]) || StartOf(words[i], line.elements[i].name)
      {
        AbbreviatesIs(words[i], line.elements[i].name);
      }
      hide Accepts, StartOf;
      if Matches(line, words, view, check) {
        forall i | 0 <= i < |words|
          ensures words[i] != "" && (Accepts(words[i], line.elements[i], check) || (words[i] == "<cr>" && i < |words| - 1))
        {
          assert Fits(line, words[i], i, check);
        }
      }
    }
  }

  /** The matches of two lists, one behind the other. */
  lemma {:induction false} MatchListParts(a: seq<Line>, b: seq<Line>, words: seq<string>, view: nat, check: Check)
    requires words != []
    ensures MatchList(a + b, words, view, check) == MatchList(a, words, view, check) + MatchList(b, words, view, check)
  {
    hide Matches;
    if b == [] {
      assert a + b == a;
    } else {
      MatchListParts(a, b[..|b| - 1], words, view, check);
      assert (a + b)[..|a + b| - 1] == a + b[..|b| - 1];
    }
  }

  lemma MatchListOne(line: Line, words: seq<string>, view: nat, check: Check)
    requires words != []
    ensures MatchList([], words, view, check) == []
    ensures MatchList([line], words, view, check) == if Matches(line, words, view, check) then [line] else []
  {
    hide Matches;
    assert [line][..0] == [];
  }

  // ---------- Arguments ----------

  /** The elements among the first n that are no end. */
  function Before(line: Line, n: nat): nat
    requires n <= |line.elements|
  {
    if n == 0 then 0 else Before(line, n - 1) + if line.elements[n - 1].kind == End then 0 else 1
  }

  lemma {:induction false} BeforeOrder(line: Line, i: nat, n: nat)
    requires i <= n <= |line.elements|
    ensures Before(line, i) <= Before(line, n)
    ensures i < n && line.elements[i].kind != End ==> Before(line, i) < Before(line, n)
  {
    if i < n {
      BeforeOrder(line, i, n - 1);
    }
  }

  /** Every element that is no end has its argument, in order: the word typed for an integer, a text or an address, the
      element's name for a keyword. */
  lemma {:induction false} ArgumentAt(line: Line, words: seq<string>, n: nat, i: nat)
    requires i < n <= |line.elements| == |words| && line.elements[i].kind != End
    ensures |Arguments(line, words, n)| == Before(line, n) && Before(line, i) < Before(line, n)
    ensures var k := line.elements[i].kind;
            Arguments(line, words, n)[Before(line, i)] ==
            if k == Integer || k == Text || k == Ip || k == Mac then words[i] else line.elements[i].name
  {
    ArgumentCount(line, words, n);
    ArgumentCount(line, words, n - 1);
    BeforeOrder(line, i, n);
    if i < n - 1 {
      ArgumentAt(line, words, n - 1, i);
    }
  }

  lemma {:induction false} ArgumentCount(line: Line, words: seq<string>, n: nat)
    requires n <= |line.elements| == |words|
    ensures |Arguments(line, words, n)| == Before(line, n)
  {
    if n > 0 {
      ArgumentCount(line, words, n - 1);
    }
  }

  // ---------- Views ----------

  /** Some view with the id p has a son with the id id. */
  predicate HasSon(v: View, p: nat, id: nat)
    decreases v, 1
  {
    (v.id == p && exists i | 0 <= i < |v.sons| :: v.sons[i].id == id) || HasSonIn(v.sons, p, id)
  }

  predicate HasSonIn(sons: seq<View>, p: nat, id: nat)
    decreases sons, 0
  {
    exists i | 0 <= i < |sons| :: HasSon(sons[i], p, id)
  }

  /** A view that is found has its id in the tree; the parent has it as a son. */
  lemma {:induction false} FoundIsSon(v: View, parent: nat, id: nat)
    ensures var r := FindParent(v, parent, id);
            r.Some? ==> if v.id == id then r.value == parent else HasSon(v, r.value, id)
    decreases v, 1
  {
    FoundInSons(v.sons, v.id, id);
  }

  lemma {:induction false} FoundInSons(sons: seq<View>, parent: nat, id: nat)
    ensures var r := FindParentIn(sons, parent, id);
            r.Some? ==> (r.value == parent && exists i | 0 <= i < |sons| :: sons[i].id == id) || HasSonIn(sons, r.value, id)
    decreases sons, 0
  {
    if sons != [] {
      FoundIsSon(sons[0], parent, id);
      FoundInSons(sons[1..], parent, id);
      assert forall i | 0 <= i < |sons[1..]| :: sons[1..][i] == sons[i + 1];
    }
  }

  /** The parent of a view: 0 for the root and for an id that is in no view, otherwise a view with it as a son. */
  lemma ParentIs(tree: View, id: nat)
    ensures tree.id == id ==> ParentId(tree, id) == 0
    ensures id !in Ids(tree) ==> ParentId(tree, id) == 0
    ensures id in Ids(tree) && tree.id != id ==> HasSon(tree, ParentId(tree, id), id)
  {
    hide FindParent, First, Ids;
    FindParentEarlier(tree, VIEW_NULL, id);
    RootFound(tree, id);
    FoundIsSon(tree, VIEW_NULL, id);
    assert First(Ids(tree), id) < |Ids(tree)| ==> Ids(tree)[First(Ids(tree), id)] == id;
  }

  lemma RootFound(tree: View, id: nat)
    ensures tree.id == id ==> FindParent(tree, 0, id) == Some(0)
  {
  }

  // ---------- The climb ----------

  /** k steps up from a view. */
  function Up(tree: View, view: nat, k: nat): nat {
    if k == 0 then view else ParentId(tree, Up(tree, view, k - 1))
  }

  lemma {:induction false} UpFirst(tree: View, view: nat, k: nat)
    ensures Up(tree, view, k + 1) == Up(tree, ParentId(tree, view), k)
  {
    hide ParentId;
    if k > 0 {
      UpFirst(tree, view, k - 1);
    }
  }

  /** The first k views above are neither none nor the global nor the user view. */
  predicate Climbs(tree: View, view: nat, k: nat) {
    forall j | 0 < j <= k :: Up(tree, view, j) != 0 && Up(tree, view, j) != 1 && Up(tree, view, j) != 2
  }

  /** Where the words are resolved: k steps up, past views where they match none or several lines. */
  lemma {:induction false} ResolvedAbove(tree: View, lines: seq<Line>, words: seq<string>, view: nat, check: Check) returns (k: nat)
    requires words != []
    ensures var r := Resolve(tree, lines, words, view, check);
            && (r.Some? ==>
                  && Climbs(tree, view, k) && r.value == Up(tree, view, k) && |MatchList(lines, words, Up(tree, view, k), check)| == 1
                  && forall j | 0 <= j < k :: |MatchList(lines, words, Up(tree, view, j), check)| != 1)
            && (r.None? ==>
                  && Climbs(tree, view, k) && !Climbs(tree, view, k + 1)
                  && forall j | 0 <= j <= k :: |MatchList(lines, words, Up(tree, view, j), check)| != 1)
    decreases First(Ids(tree), view)
  {
    hide MatchList, ParentId, First, Ids;
    k := 0;
    UpFirst(tree, view, 0);
    var p := ParentId(tree, view);
    if |MatchList(lines, words, view, check)| != 1 && !Stops(p) {
      ParentEarlier(tree, view);
      var n := ResolvedAbove(tree, lines, words, p, check);
      k := n + 1;
      forall j: nat
        ensures Up(tree, view, j + 1) == Up(tree, p, j)
      {
        UpFirst(tree, view, j);
      }
      assert forall j | 0 < j <= n + 2 :: Up(tree, view, j) == Up(tree, p, j - 1);
      assert Up(tree, view, 1) == p;
    }
  }
}
