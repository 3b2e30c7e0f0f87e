/** The grammar of JsonSpec, one step at a time: what a value, an item or a member is read as. */
module JsonSteps {
  import opened JsonSpec

  lemma SkipStep(s: string)
    requires Terminated(s)
    ensures s[0] <= ' ' && |s| > 1 ==> Terminated(s[1..]) && SkipWs(s) == SkipWs(s[1..])
    ensures !(s[0] <= ' ' && |s| > 1) ==> SkipWs(s) == s
  {
  }

  lemma SuffixTerminated(s: string, n: nat)
    requires Terminated(s) && n < |s|
    ensures Terminated(s[n..])
  {
  }

  lemma NotLast(s: string)
    requires Terminated(s) && s[0] != NUL
    ensures |s| > 1
  {
  }

  lemma ValueIsWord(s: string, depth: nat)
    requires Terminated(s)
    ensures "null" <= s ==> ParseValue(s, depth) == Ok(Null, s[4..])
    ensures "false" <= s ==> ParseValue(s, depth) == Ok(False, s[5..])
    ensures "true" <= s ==> ParseValue(s, depth) == Ok(True, s[4..])
  {
    assert "false" <= s ==> s[0] == 'f' && !("null" <= s);
    assert "true" <= s ==> s[0] == 't' && !("null" <= s) && !("false" <= s);
    hide ParseString, ParseNumber, ParseItems, ParseMembers, SkipWs;
  }

  /** What s starts with when none of the words does. */
  predicate NoWord(s: string) {
    !("null" <= s) && !("false" <= s) && !("true" <= s)
  }

  lemma NoWordFirst(s: string)
    requires s != "" && s[0] != 'n' && s[0] != 'f' && s[0] != 't'
    ensures NoWord(s)
  {
    assert "null"[0] == 'n' && "false"[0] == 'f' && "true"[0] == 't';
  }

  function StringValue(r: Result<string>): Result<Json> {
    match r
    case Fail => Fail
    case Ok(s, rest) => Ok(String(s), rest)
  }

  function ArrayValue(r: Result<seq<Json>>): Result<Json> {
    match r
    case Fail => Fail
    case Ok(items, rest) => Ok(Array(items), rest)
  }

  function ObjectValue(r: Result<seq<Member>>): Result<Json> {
    match r
    case Fail => Fail
    case Ok(members, rest) => Ok(Object(members), rest)
  }

  lemma ValueIsOther(s: string, depth: nat)
    requires Terminated(s) && NoWord(s)
    ensures s[0] == '\"' ==> ParseValue(s, depth) == StringValue(ParseString(s))
    ensures s[0] == '-' || Digit(s[0]) ==> ParseValue(s, depth) == ParseNumber(s)
    ensures s[0] !in {'\"', '-', '[', '{'} && !Digit(s[0]) ==> ParseValue(s, depth) == Fail
  {
    hide ParseString, ParseNumber, ParseItems, ParseMembers, SkipWs;
  }

  lemma ValueIsArray(s: string, depth: nat)
    requires Terminated(s) && NoWord(s) && s[0] == '['
    ensures Terminated(s[1..])
    ensures ParseValue(s, depth) ==
            if depth >= NESTING_LIMIT then Fail
            else
              var t := SkipWs(s[1..]);
              if t[0] == ']' then Ok(Array([]), t[1..]) else ArrayValue(ParseItems(t, depth + 1))
  {
    hide ParseString, ParseNumber, ParseItems, ParseMembers, SkipWs;
  }

  lemma ValueIsObject(s: string, depth: nat)
    requires Terminated(s) && NoWord(s) && s[0] == '{'
    ensures Terminated(s[1..])
    ensures ParseValue(s, depth) ==
            if depth >= NESTING_LIMIT then Fail
            else
              var t := SkipWs(s[1..]);
              if t[0] == '}' then Ok(Object([]), t[1..]) else ObjectValue(ParseMembers(t, depth + 1))
  {
    hide ParseString, ParseNumber, ParseItems, ParseMembers, SkipWs;
  }

  /** The elements read so far, in front of those still to be read. */
  function Joined<T>(done: seq<T>, r: Result<seq<T>>): Result<seq<T>> {
    match r
    case Fail => Fail
    case Ok(more, rest) => Ok(done + more, rest)
  }

  lemma JoinedTwice<T>(a: seq<T>, b: seq<T>, r: Result<seq<T>>)
    ensures Joined(a, Joined(b, r)) == Joined(a + b, r)
  {
    if r.Ok? {
      assert a + (b + r.value) == (a + b) + r.value;
    }
  }

  lemma JoinedNothing<T>(r: Result<seq<T>>)
    ensures Joined([], r) == r
  {
    if r.Ok? {
      assert [] + r.value == r.value;
    }
  }

  /** What comes after an element: a comma and further elements, the closing byte, or neither. */
  datatype Next = More(rest: string) | Close(rest: string) | Neither

  function Separator(t: string, close: char): (n: Next)
    requires Terminated(t) && close != NUL
    ensures !n.Neither? ==> Terminated(n.rest) && 0 < |n.rest| < |t|
  {
    if t[0] == ',' then
      SuffixTerminated(t, 1);
      More(t[1..])
    else if t[0] == close then
      SuffixTerminated(t, 1);
      Close(t[1..])
    else Neither
  }

  /** The items already read and what comes next. */
  function MoreItems(done: seq<Json>, n: Next, depth: nat): Result<seq<Json>>
    requires !n.Neither? ==> Terminated(n.rest)
  {
    match n
    case More(u) => Joined(done, ParseItems(u, depth))
    case Close(u) => Ok(done, u)
    case Neither => Fail
  }

  function MoreMembers(done: seq<Member>, n: Next, depth: nat): Result<seq<Member>>
    requires !n.Neither? ==> Terminated(n.rest)
  {
    match n
    case More(u) => Joined(done, ParseMembers(u, depth))
    case Close(u) => Ok(done, u)
    case Neither => Fail
  }

  lemma JoinedMoreItems(done: seq<Json>, v: Json, n: Next, depth: nat)
    requires !n.Neither? ==> Terminated(n.rest)
    ensures Joined(done, MoreItems([v], n, depth)) == MoreItems(done + [v], n, depth)
  {
    hide ParseItems;
    if n.More? {
      JoinedTwice(done, [v], ParseItems(n.rest, depth));
    }
  }

  lemma JoinedMoreMembers(done: seq<Member>, m: Member, n: Next, depth: nat)
    requires !n.Neither? ==> Terminated(n.rest)
    ensures Joined(done, MoreMembers([m], n, depth)) == MoreMembers(done + [m], n, depth)
  {
    hide ParseMembers;
    if n.More? {
      JoinedTwice(done, [m], ParseMembers(n.rest, depth));
    }
  }

  lemma MoreItemsNow(done: seq<Json>, u: string, depth: nat)
    requires Terminated(u)
    ensures MoreItems(done, More(u), depth) == Joined(done, ParseItems(u, depth))
    ensures MoreItems(done, Close(u), depth) == Ok(done, u)
    ensures MoreItems(done, Neither, depth) == Fail
    ensures MoreItems([], More(u), depth) == ParseItems(u, depth)
  {
    JoinedNothing(ParseItems(u, depth));
  }

  lemma MoreMembersNow(done: seq<Member>, u: string, depth: nat)
    requires Terminated(u)
    ensures MoreMembers(done, More(u), depth) == Joined(done, ParseMembers(u, depth))
    ensures MoreMembers(done, Close(u), depth) == Ok(done, u)
    ensures MoreMembers(done, Neither, depth) == Fail
    ensures MoreMembers([], More(u), depth) == ParseMembers(u, depth)
  {
    JoinedNothing(ParseMembers(u, depth));
  }

  lemma ItemsStep(s: string, depth: nat)
    requires Terminated(s)
    ensures var v := ParseValue(SkipWs(s), depth);
            ParseItems(s, depth) ==
            if v.Fail? then Fail else MoreItems([v.value], Separator(SkipWs(v.rest), ']'), depth)
  {
    hide ParseValue, SkipWs;
  }

  lemma MembersStep(s: string, depth: nat)
    requires Terminated(s)
    ensures var k := ParseString(SkipWs(s));
            ParseMembers(s, depth) ==
            if k.Fail? || SkipWs(k.rest)[0] != ':' then Fail
            else MemberValue(k.value, ParseValue(SkipWs(SkipWs(k.rest)[1..]), depth), depth)
  {
    hide ParseValue, SkipWs, ParseString;
  }

  function MemberValue(key: string, v: Result<Json>, depth: nat): Result<seq<Member>>
    requires v.Ok? ==> Terminated(v.rest)
  {
    if v.Fail? then Fail
    else MoreMembers([Member(key, v.value)], Separator(SkipWs(v.rest), '}'), depth)
  }

  // ---------- Whitespace ----------

  /** Section 2 of RFC 8259. */
  predicate RfcWhitespace(c: char) {
    c == ' ' || c == '\t' || c == '\n' || c == '\r'
  }

  /** What is left behind the whitespace of the RFC. */
  function RfcSkip(s: string): (r: string)
    requires Terminated(s)
    ensures Terminated(r)
  {
    if RfcWhitespace(s[0]) then
      Behind(s, 1);
      RfcSkip(s[1..])
    else s
  }

  /** The code skips exactly the whitespace of the RFC unless a control byte that is none comes next. */
  lemma {:induction false} SkipIsRfc(s: string)
    requires Terminated(s)
    ensures SkipWs(s) == RfcSkip(s) <==> RfcSkip(s)[0] == NUL || RfcSkip(s)[0] > ' '
  {
    SkipStep(s);
    if RfcWhitespace(s[0]) {
      Behind(s, 1);
      SkipIsRfc(s[1..]);
    } else if s[0] != NUL && s[0] <= ' ' {
      Behind(s, 1);
      SkipShorter(s[1..]);
    }
  }

  lemma SkipShorter(s: string)
    requires Terminated(s)
    ensures |SkipWs(s)| <= |s|
  {
  }

  /** The bytes that are skipped: 1 to 32. Those from 1 to 8, 11, 12 and from 14 to 31 are no whitespace of the RFC. */
  lemma SkippedBytes(c: char, s: string)
    requires c != NUL && Terminated([c] + s)
    ensures SkipWs([c] + s) != [c] + s <==> c <= ' '
    ensures c <= ' ' && !RfcWhitespace(c) <==> 1 <= c as int <= 8 || 11 <= c as int <= 12 || 14 <= c as int <= 31
  {
    SkipStep([c] + s);
    Behind([c] + s, 1);
    SkipShorter(([c] + s)[1..]);
  }
}
