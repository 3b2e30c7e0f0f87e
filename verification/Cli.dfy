/** The command matcher as it runs: passes over a copied vector that set entries to null, and the climb through the views. */
module Cli {
  import opened Options
  import opened CliSpec

  const NUL: char := '\U{0000}'

  predicate CString(s: string) {
    NUL !in s
  }

  // ---------- util_strnicmp ----------

  /** The byte of a C string at i, its NUL included. */
  function ByteAt(s: string, i: nat): char {
    if i < |s| then s[i] else NUL
  }

  /** Do the first n bytes agree, up to case? */
  predicate SameBytes(s: string, t: string, n: nat) {
    forall i | 0 <= i < n :: Lower(ByteAt(s, i)) == Lower(ByteAt(t, i))
  }

  /** How many bytes a count allows to compare: one that is not positive never runs out. */
  function Limit(dst: string, src: string, count: int): (n: nat)
    ensures n > 0
  {
    if count > 0 then count else |dst| + |src| + 1
  }

  /** util_strnicmp: a positive count cuts both strings, any other compares them whole. */
  method StrNICmp(dst: string, src: string, count: int) returns (r: int)
    requires CString(dst) && CString(src)
    ensures count > 0 ==> (r == 0 <==> LowerAll(Take(dst, count)) == LowerAll(Take(src, count)))
    ensures count <= 0 ==> (r == 0 <==> LowerAll(dst) == LowerAll(src))
  {
    ghost var n := Limit(dst, src, count);
    var i := 0;
    var left := count;
    var ch1, ch2 := NUL, NUL;
    var more := true;
    while more
      invariant 0 <= i <= n && left == count - i && (more ==> i < n)
      invariant more ==> SameBytes(dst, src, i) && i <= |dst| && i <= |src|
      invariant !more ==> i > 0 && ch1 == Lower(ByteAt(dst, i - 1)) && ch2 == Lower(ByteAt(src, i - 1))
      invariant !more ==> SameBytes(dst, src, i - 1) && i - 1 <= |dst| && i - 1 <= |src|
      invariant !more ==> i == n || ch1 == NUL || ch1 != ch2
      decreases n - i
    {
      ch1 := Lower(ByteAt(dst, i));
      ch2 := Lower(ByteAt(src, i));
      InsideBytes(dst, i);
      InsideBytes(src, i);
      i := i + 1;
      left := left - 1;
      more := left != 0 && ch1 != NUL && ch1 == ch2;
    }
    r := ch1 as int - ch2 as int;
    Truncated(dst, src, i - 1, n);
  }

  lemma InsideBytes(s: string, i: nat)
    requires CString(s) && i <= |s|
    ensures Lower(ByteAt(s, i)) == NUL <==> i == |s|
  {
    assert i < |s| ==> s[i] in s;
  }

  /** Where the comparison stops decides it. */
  lemma Truncated(s: string, t: string, i: nat, count: nat)
    requires CString(s) && CString(t) && i < count && SameBytes(s, t, i) && i <= |s| && i <= |t|
    requires var a, b := Lower(ByteAt(s, i)), Lower(ByteAt(t, i)); i + 1 == count || a == NUL || a != b
    ensures Lower(ByteAt(s, i)) == Lower(ByteAt(t, i)) <==> LowerAll(Take(s, count)) == LowerAll(Take(t, count))
  {
    var x, y := LowerAll(Take(s, count)), LowerAll(Take(t, count));
    InsideBytes(s, i);
    InsideBytes(t, i);
    if Lower(ByteAt(s, i)) == Lower(ByteAt(t, i)) {
      assert |x| == |y|;
      forall j | 0 <= j < |x|
        ensures x[j] == y[j]
      {
        assert Lower(ByteAt(s, j)) == Lower(ByteAt(t, j));
        assert x[j] == Lower(s[j]) && y[j] == Lower(t[j]);
      }
    } else if i < |s| && i < |t| {
      assert x[i] == Lower(s[i]) && y[i] == Lower(t[i]);
    }
  }

  /** With the whole word as count it is a prefix test. */
  method MatchName(word: string, name: string) returns (b: bool)
    requires CString(word) && CString(name) && word != ""
    ensures b == Abbreviates(word, name)
  {
    var r := StrNICmp(word, name, |word|);
    b := r == 0;
    assert Take(word, |word|) == word;
  }

  predicate WellNamed(line: Line) {
    forall i | 0 <= i < |line.elements| :: CString(line.elements[i].name)
  }

  method AcceptsElement(word: string, e: Element, check: Check) returns (b: bool)
    requires CString(word) && CString(e.name) && word != ""
    ensures b == Accepts(word, e, check)
  {
    b := check(word, e);
    if !b {
      b := MatchName(word, e.name);
    }
  }

  // ---------- The vector of candidates ----------

  /** What the passes for the first n words leave of a line. */
  function Survivor(line: Line, words: seq<string>, n: nat, view: nat, check: Check): Option<Line>
    requires n <= |words|
  {
    if !InView(line, view) || FitsAll(line, words, n, check) then Some(line) else None
  }

  /** A pass for one word: lines out of view stay, lines the word does not fit are set to null. */
  function Passed(entry: Option<Line>, word: string, i: nat, view: nat, check: Check): Option<Line> {
    if entry.Some? && InView(entry.value, view) && !Fits(entry.value, word, i, check) then None else entry
  }

  predicate Candidate(entry: Option<Line>, view: nat) {
    entry.Some? && InView(entry.value, view)
  }

  /** cmd_filter_command. */
  method FilterCommand(v: array<Option<Line>>, cmd: string, index: nat, view: nat, check: Check) returns (ok: bool)
    requires CString(cmd) && forall k | 0 <= k < v.Length :: v[k].Some? ==> WellNamed(v[k].value)
    modifies v
    ensures cmd == "" ==> !ok
    ensures cmd != "" ==> forall k | 0 <= k < v.Length :: v[k] == Passed(old(v[k]), cmd, index, view, check)
    ensures cmd != "" && cmd != CR ==> (ok <==> exists k | 0 <= k < v.Length :: Candidate(v[k], view))
    ensures cmd == CR ==> ok
  {
    if cmd == "" {
      return false;
    }
    if cmd == CR {
      return true;
    }
    ok := false;
    var i := 0;
    while i < v.Length
      invariant 0 <= i <= v.Length
      invariant forall k | 0 <= k < i :: v[k] == Passed(old(v[k]), cmd, index, view, check)
      invariant forall k | i <= k < v.Length :: v[k] == old(v[k])
      invariant ok <==> exists k | 0 <= k < i :: Candidate(v[k], view)
    {
      ghost var was := ok;
      if Candidate(v[i], view) {
        var line := v[i].value;
        if index >= |line.elements| {
          v[i] := None;
        } else {
          var accepted := AcceptsElement(cmd, line.elements[index], check);
          if accepted {
            ok := true;
            assert Candidate(v[i], view);
          } else {
            v[i] := None;
          }
        }
      }
      i := i + 1;
    }
  }

  // ---------- cmd_execute_command and cmd_run ----------

  datatype MatchStatus = NoMatch | FullMatch | Ambiguous

  predicate ParameterKind(kind: Kind) {
    kind == Integer || kind == Text || kind == Ip || kind == Mac
  }

  /** What a command is called with: typed words for parameters, element names for keywords, nothing for the end. */
  function Arguments(line: Line, words: seq<string>, n: nat): seq<string>
    requires n <= |line.elements| == |words|
  {
    if n == 0 then []
    else
      var e := line.elements[n - 1];
      Arguments(line, words, n - 1)
      + if e.kind == End then [] else [if ParameterKind(e.kind) then words[n - 1] else e.name]
  }

  /** The command itself, run by somebody else: the view it leaves the terminal in. */
  type Notify = (Line, seq<string>, nat) -> nat

  class Terminal {
    var view: nat

    constructor (view: nat)
      ensures this.view == view
    {
      this.view := view;
    }

    /** cmd_execute_command in the current view. */
    method Execute(words: seq<string>, lines: seq<Line>, check: Check, notify: Notify) returns (status: MatchStatus)
      requires words != [] && (forall i | 0 <= i < |words| :: CString(words[i]))
      requires forall i | 0 <= i < |lines| :: WellNamed(lines[i])
      modifies this
      ensures var m := MatchList(lines, words, old(view), check);
              if |m| == 0 then status == NoMatch && view == old(view)
              else if |m| == 1 then
                |m[0].elements| == |words| && status == FullMatch
                && view == notify(m[0], Arguments(m[0], words, |words|), old(view))
              else status == Ambiguous && view == old(view)
    {
      var v := new Option<Line>[|lines|];
      forall k | 0 <= k < |lines| {
        v[k] := Some(lines[k]);
      }
      var i := 0;
      while i < |words|
        invariant 0 <= i <= |words|
        invariant forall k | 0 <= k < |lines| :: v[k] == Survivor(lines[k], words, i, view, check)
        invariant view == old(view) && forall j | 0 <= j < i :: words[j] != ""
      {
        var ok := FilterCommand(v, words[i], i, view, check);
        if !ok {
          NothingFits(lines, words, i, view, check);
          return NoMatch;
        }
        NextPass(lines, words, i, view, check);
        i := i + 1;
      }
      var count, last := CountMatches(v, lines, words, view, check);
      if count == 0 {
        return NoMatch;
      }
      if count > 1 {
        return Ambiguous;
      }
      var args := CollectArguments(last, words);
      view := notify(last, args, view);
      status := FullMatch;
    }

    /** cmd_run: here, or in the nearest view above where the words match one line. Otherwise the view is as before.
        An input without any word does nothing. */
    method Run(typed: seq<string>, tree: View, lines: seq<Line>, check: Check, notify: Notify) returns (ok: bool)
      requires forall i | 0 <= i < |typed| :: CString(typed[i])
      requires forall i | 0 <= i < |lines| :: WellNamed(lines[i])
      modifies this
      ensures var words := typed + [CR];
              var w := Resolve(tree, lines, words, old(view), check);
              ok == (typed != [] && w.Some?)
              && (!ok ==> view == old(view))
              && (ok ==> RunsIn(lines, words, w.value, check, notify, view))
    {
      hide MatchList, First, ParentId;
      assert CString(CR);
      if typed == [] {
        return false;
      }
      var words := typed + [CR];
      var status := Execute(words, lines, check, notify);
      var start := view;
      while status != FullMatch
        invariant status != FullMatch ==> start == old(view)
        invariant status != FullMatch ==> |MatchList(lines, words, view, check)| != 1
        invariant status != FullMatch ==>
            Resolve(tree, lines, words, old(view), check) == Resolve(tree, lines, words, view, check)
        invariant status == FullMatch ==>
            var w := Resolve(tree, lines, words, old(view), check);
            w.Some? && RunsIn(lines, words, w.value, check, notify, view)
        decreases if status == FullMatch then 0 else 1 + First(Ids(tree), view)
      {
        var parent := GetParentViewId(tree, view);
        if Stops(parent) {
          view := start;
          break;
        }
        ParentEarlier(tree, view);
        view := parent;
        status := Execute(words, lines, check, notify);
      }
      ok := status == FullMatch;
    }
  }

  /** The only match in the view from was run with its arguments and left the terminal in the view to. */
  ghost predicate RunsIn(lines: seq<Line>, words: seq<string>, from: nat, check: Check, notify: Notify, to: nat)
    requires words != []
  {
    var m := MatchList(lines, words, from, check);
    |m| == 1 && |m[0].elements| == |words| && to == notify(m[0], Arguments(m[0], words, |words|), from)
  }

  lemma NextPass(lines: seq<Line>, words: seq<string>, i: nat, view: nat, check: Check)
    requires i < |words|
    ensures forall k | 0 <= k < |lines| ::
      Passed(Survivor(lines[k], words, i, view, check), words[i], i, view, check) == Survivor(lines[k], words, i + 1, view, check)
  {
    hide Fits, InView;
  }

  /** If no line is left, or a word is empty, no line matches. */
  lemma NothingFits(lines: seq<Line>, words: seq<string>, i: nat, view: nat, check: Check)
    requires i < |words|
    requires words[i] == "" || forall k | 0 <= k < |lines| ::
               !Candidate(Passed(Survivor(lines[k], words, i, view, check), words[i], i, view, check), view)
    ensures MatchList(lines, words, view, check) == []
  {
    NextPass(lines, words, i, view, check);
    forall k | 0 <= k < |lines|
      ensures !Matches(lines[k], words, view, check)
    {
      if words[i] == "" {
        assert !Fits(lines[k], words[i], i, check);
      } else {
        assert !Candidate(Survivor(lines[k], words, i + 1, view, check), view);
        assert !InView(lines[k], view) || !FitsAll(lines[k], words, i + 1, check);
      }
    }
    NoMatches(lines, words, view, check);
  }

  lemma {:induction false} NoMatches(lines: seq<Line>, words: seq<string>, view: nat, check: Check)
    requires words != [] && forall k | 0 <= k < |lines| :: !Matches(lines[k], words, view, check)
    ensures MatchList(lines, words, view, check) == []
  {
    hide Matches;
    if lines != [] {
      NoMatches(lines[..|lines| - 1], words, view, check);
    }
  }

  /** The second loop of cmd_execute_command. */
  method CountMatches(v: array<Option<Line>>, lines: seq<Line>, words: seq<string>, view: nat, check: Check)
    returns (count: nat, last: Line)
    requires words != [] && v.Length == |lines| && (forall i | 0 <= i < |words| :: CString(words[i]) && words[i] != "")
    requires forall i | 0 <= i < |lines| :: WellNamed(lines[i])
    requires forall k | 0 <= k < |lines| :: v[k] == Survivor(lines[k], words, |words|, view, check)
    ensures var m := MatchList(lines, words, view, check);
            count == |m| && (count > 0 ==> last == m[count - 1])
    ensures count > 0 ==> WellNamed(last) && |last.elements| == |words|
  {
    hide FitsAll, Accepts;
    var n := |words|;
    count := 0;
    last := Line(VIEW_NULL, []);
    var i := 0;
    while i < v.Length
      invariant 0 <= i <= v.Length
      invariant var m := MatchList(lines[..i], words, view, check);
                count == |m| && (count > 0 ==> last == m[count - 1])
      invariant count > 0 ==> WellNamed(last) && |last.elements| == n
    {
      assert lines[..i + 1][..i] == lines[..i];
      if Candidate(v[i], view) {
        var line := v[i].value;
        if n == |line.elements| {
          var accepted := AcceptsElement(words[n - 1], line.elements[n - 1], check);
          if accepted {
            count := count + 1;
            last := line;
          }
        }
      }
      i := i + 1;
    }
    assert lines[..i] == lines;
  }

  /** The argument loop of cmd_execute_command. */
  method CollectArguments(line: Line, words: seq<string>) returns (args: seq<string>)
    requires |line.elements| == |words|
    ensures args == Arguments(line, words, |words|)
  {
    args := [];
    var i := 0;
    while i < |line.elements|
      invariant 0 <= i <= |line.elements|
      invariant args == Arguments(line, words, i)
    {
      var e := line.elements[i];
      if e.kind != End {
        args := args + [if ParameterKind(e.kind) then words[i] else e.name];
      }
      i := i + 1;
    }
  }

  // ---------- The search in the tree of views ----------

  /** cmd_view_get, and the parent of what it finds. */
  method FindView(v: View, parent: nat, id: nat) returns (r: Option<nat>)
    ensures r == FindParent(v, parent, id)
    decreases v
  {
    if v.id == id {
      return Some(parent);
    }
    var i := 0;
    assert v.sons[0..] == v.sons;
    while i < |v.sons|
      invariant 0 <= i <= |v.sons|
      invariant FindParentIn(v.sons, v.id, id) == FindParentIn(v.sons[i..], v.id, id)
    {
      assert v.sons[i..][1..] == v.sons[i + 1..];
      r := FindView(v.sons[i], v.id, id);
      if r.Some? {
        return;
      }
      i := i + 1;
    }
    r := None;
  }

  method GetParentViewId(tree: View, id: nat) returns (parent: nat)
    ensures parent == ParentId(tree, id)
  {
    var r := FindView(tree, VIEW_NULL, id);
    parent := if r.Some? then r.value else VIEW_NULL;
  }
}
