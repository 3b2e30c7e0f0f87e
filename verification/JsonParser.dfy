/** The recursive parser over a shared cursor. It terminates on every input and reads what JsonSpec says. */
module JsonParser {
  import opened Options
  import opened JsonSpec
  import opened JsonSteps
  import opened JsonLiteral

  // ---------- The cursor ----------

  class ParseBuffer {
    const content: string
    var offset: nat
    /** How many arrays and objects are open. */
    var depth: nat

    ghost predicate Valid()
      reads this
    {
      Terminated(content) && offset < |content|
    }

    /** What is still to be read. */
    ghost function Rest(): (s: string)
      reads this
      requires Valid()
      ensures Terminated(s) && |s| == |content| - offset
    {
      content[offset..]
    }

    /** Is r, with the cursor where it is now, what the specification reads? */
    ghost predicate Read<T>(spec: Result<T>, r: Option<T>, depth: nat)
      reads this
    {
      match spec
      case Fail => r == None
      case Ok(v, rest) => r == Some(v) && Valid() && Rest() == rest && this.depth == depth
    }

    /** A cursor at the start of the C string text, the length counting the NUL. */
    constructor (text: string)
      requires CString(text)
      ensures Valid() && depth == 0 && offset == 0 && content == text + [NUL]
    {
      content := text + [NUL];
      offset, depth := 0, 0;
      new;
      assert content[..|content| - 1] == text;
      assert forall i | 0 <= i < |content| - 1 :: content[i] == text[i];
    }

    method SkipWhitespace()
      requires Valid()
      modifies this`offset
      ensures Valid() && Rest() == SkipWs(old(Rest())) && old(offset) <= offset
    {
      hide SkipWs;
      while offset < |content| && content[offset] <= ' '
        invariant old(offset) <= offset <= |content|
        invariant offset < |content| ==> SkipWs(content[offset..]) == SkipWs(old(Rest()))
        invariant offset == |content| ==> SkipWs(old(Rest())) == [NUL]
      {
        SuffixTerminated(content, offset);
        SkipStep(content[offset..]);
        assert content[offset..][1..] == content[offset + 1..];
        offset := offset + 1;
      }
      if offset == |content| {
        offset := offset - 1;
      } else {
        SuffixTerminated(content, offset);
        SkipStep(content[offset..]);
      }
    }

    /** can_read and strncmp. */
    method StartsWith(word: string) returns (b: bool)
      requires Valid()
      ensures b <==> word <= Rest()
    {
      b := offset + |word| <= |content| && content[offset..offset + |word|] == word;
      assert offset + |word| <= |content| ==> Rest()[..|word|] == content[offset..offset + |word|];
    }

    method ReadStringHere() returns (r: Option<string>)
      requires Valid()
      modifies this`offset
      ensures Read(ParseString(old(Rest())), r, depth)
      ensures r.Some? ==> old(offset) < offset
    {
      hide ParseString;
      SuffixTerminated(content, offset);
      var end;
      r, end := ReadString(content, offset);
      if r.Some? {
        offset := end + 1;
      }
    }

    method ReadNumber() returns (r: Option<Json>)
      requires Valid()
      modifies this`offset
      ensures Read(ParseNumber(old(Rest())), r, depth)
      ensures r.Some? ==> old(offset) < offset
    {
      hide Strtod, NumericRun;
      SuffixTerminated(content, offset);
      ghost var s := Rest();
      var number, n := CopyNumber(content, offset);
      var parsed := Strtod(number[..n]);
      match parsed {
        case None => r := None;
        case Some(t) =>
          SuffixTerminated(content, offset + t.2);
          assert s[t.2..] == content[offset + t.2..];
          r := Some(Number(t.0, t.1));
          offset := offset + t.2;
      }
    }

    /** parse_value. It comes back, whatever the text is. */
    method ReadValue() returns (r: Option<Json>)
      requires Valid()
      modifies this
      ensures Read(ParseValue(old(Rest()), old(depth)), r, old(depth))
      ensures r.Some? ==> old(offset) < offset
      decreases |content| - offset, 1
    {
      hide ParseValue, ParseString, ParseNumber, NoWord;
      r := ReadWord();
      if r.Some? {
        return;
      }
      ValueIsOther(Rest(), depth);
      if content[offset] == '\"' {
        var str := ReadStringHere();
        r := if str.Some? then Some(String(str.value)) else None;
      } else if content[offset] == '-' || Digit(content[offset]) {
        r := ReadNumber();
      } else if content[offset] == '[' {
        r := ReadArray();
      } else if content[offset] == '{' {
        r := ReadObject();
      }
    }

    /** The three words. */
    method ReadWord() returns (r: Option<Json>)
      requires Valid()
      modifies this`offset
      ensures r == None ==> offset == old(offset) && NoWord(Rest())
      ensures r.Some? ==> old(offset) < offset && Read(ParseValue(old(Rest()), depth), r, depth)
    {
      hide ParseValue;
      ValueIsWord(Rest(), depth);
      var word := StartsWith("null");
      if word {
        Advance(4);
        return Some(Null);
      }
      word := StartsWith("false");
      if word {
        Advance(5);
        return Some(False);
      }
      word := StartsWith("true");
      if word {
        Advance(4);
        return Some(True);
      }
      r := None;
    }

    /** Past n bytes that are no NUL. */
    method Advance(n: nat)
      requires Valid() && n < |Rest()|
      modifies this`offset
      ensures Valid() && Rest() == old(Rest())[n..] && offset == old(offset) + n
    {
      SuffixTerminated(content, offset + n);
      assert content[offset..][n..] == content[offset + n..];
      offset := offset + n;
    }

    method ReadArray() returns (r: Option<Json>)
      requires Valid() && NoWord(Rest()) && Rest()[0] == '['
      modifies this
      ensures Read(ParseValue(old(Rest()), old(depth)), r, old(depth))
      ensures r.Some? ==> old(offset) < offset
      decreases |content| - offset, 0
    {
      hide ParseValue, ParseItems, SkipWs, Terminated, NoWord;
      NotLast(Rest());
      ValueIsArray(Rest(), depth);
      if depth >= NESTING_LIMIT {
        return None;
      }
      depth := depth + 1;
      Advance(1);
      SkipWhitespace();
      if content[offset] == ']' {
        NotLast(Rest());
        depth := depth - 1;
        Advance(1);
        return Some(Array([]));
      }
      var items := ReadItems();
      r := if items.Some? then Some(Array(items.value)) else None;
    }

    /** One turn of the loop of parse_array, from the byte in front of an element to the one after it. */
    method ReadItem(ghost s: string) returns (r: Option<Json>)
      requires Valid() && 0 < depth && |Rest()| > 1 && s == Rest()[1..]
      modifies this
      ensures Terminated(s)
      ensures r == None ==> ParseItems(s, old(depth)) == Fail
      ensures r.Some? ==> (
        Valid() && depth == old(depth) && old(offset) + 1 < offset
        && ParseItems(s, depth) == MoreItems([r.value], Separator(Rest(), ']'), depth))
      decreases |content| - offset - 1, 2
    {
      hide ParseValue, ParseItems, SkipWs, MoreItems, Separator;
      Advance(1);
      ItemsStep(s, depth);
      SkipWhitespace();
      r := ReadValue();
      if r.Some? {
        SkipWhitespace();
      }
    }

    /** The loop of parse_array. */
    method ReadItems() returns (r: Option<seq<Json>>)
      requires Valid() && 0 < offset && 0 < depth
      modifies this
      ensures Read(ParseItems(old(Rest()), old(depth)), r, old(depth) - 1)
      ensures r.Some? ==> old(offset) < offset
      decreases |content| - offset, 3
    {
      hide ParseItems, Terminated, MoreItems;
      ghost var all := ParseItems(Rest(), depth);
      var items: seq<Json> := [];
      MoreItemsNow([], Rest(), depth);
      offset := offset - 1;
      assert Rest()[1..] == old(Rest());
      ghost var next := More(Rest()[1..]);
      while true
        invariant Valid() && |Rest()| > 1 && old(offset) <= offset + 1 && depth == old(depth)
        invariant next == More(Rest()[1..]) && Terminated(next.rest) && all == MoreItems(items, next, depth)
        decreases |content| - offset
      {
        MoreItemsNow(items, next.rest, depth);
        var item := ReadItem(next.rest);
        if item.None? {
          return None;
        }
        next := Separator(Rest(), ']');
        JoinedMoreItems(items, item.value, next, depth);
        items := items + [item.value];
        if content[offset] != ',' {
          break;
        }
      }
      MoreItemsNow(items, if next.Close? then next.rest else Rest(), depth);
      if content[offset] != ']' {
        return None;
      }
      depth := depth - 1;
      Advance(1);
      r := Some(items);
    }

    method ReadObject() returns (r: Option<Json>)
      requires Valid() && NoWord(Rest()) && Rest()[0] == '{'
      modifies this
      ensures Read(ParseValue(old(Rest()), old(depth)), r, old(depth))
      ensures r.Some? ==> old(offset) < offset
      decreases |content| - offset, 0
    {
      hide ParseValue, ParseMembers, SkipWs, Terminated, NoWord;
      NotLast(Rest());
      ValueIsObject(Rest(), depth);
      if depth >= NESTING_LIMIT {
        return None;
      }
      depth := depth + 1;
      Advance(1);
      SkipWhitespace();
      if content[offset] == '}' {
        NotLast(Rest());
        depth := depth - 1;
        Advance(1);
        return Some(Object([]));
      }
      var members := ReadMembers();
      r := if members.Some? then Some(Object(members.value)) else None;
    }

    /** One turn of the loop of parse_object: name, colon and value. */
    method ReadMember(ghost s: string) returns (r: Option<Member>)
      requires Valid() && 0 < depth && |Rest()| > 1 && s == Rest()[1..]
      modifies this
      ensures Terminated(s)
      ensures r == None ==> ParseMembers(s, old(depth)) == Fail
      ensures r.Some? ==> (
        Valid() && depth == old(depth) && old(offset) + 1 < offset
        && ParseMembers(s, depth) == MoreMembers([r.value], Separator(Rest(), '}'), depth))
      decreases |content| - offset - 1, 2
    {
      hide ParseValue, ParseMembers, SkipWs, MoreMembers, Separator, ParseString;
      r := None;
      Advance(1);
      MembersStep(s, depth);
      SkipWhitespace();
      var key := ReadStringHere();
      if key.None? {
        return;
      }
      SkipWhitespace();
      if content[offset] != ':' {
        return;
      }
      Advance(1);
      SkipWhitespace();
      var v := ReadValue();
      if v.None? {
        return;
      }
      SkipWhitespace();
      r := Some(Member(key.value, v.value));
    }

    /** The loop of parse_object. */
    method ReadMembers() returns (r: Option<seq<Member>>)
      requires Valid() && 0 < offset && 0 < depth
      modifies this
      ensures Read(ParseMembers(old(Rest()), old(depth)), r, old(depth) - 1)
      ensures r.Some? ==> old(offset) < offset
      decreases |content| - offset, 3
    {
      hide ParseMembers, Terminated, MoreMembers;
      ghost var all := ParseMembers(Rest(), depth);
      var members: seq<Member> := [];
      MoreMembersNow([], Rest(), depth);
      offset := offset - 1;
      assert Rest()[1..] == old(Rest());
      ghost var next := More(Rest()[1..]);
      while true
        invariant Valid() && |Rest()| > 1 && old(offset) <= offset + 1 && depth == old(depth)
        invariant next == More(Rest()[1..]) && Terminated(next.rest) && all == MoreMembers(members, next, depth)
        decreases |content| - offset
      {
        MoreMembersNow(members, next.rest, depth);
        var member := ReadMember(next.rest);
        if member.None? {
          return None;
        }
        next := Separator(Rest(), '}');
        JoinedMoreMembers(members, member.value, next, depth);
        members := members + [member.value];
        if content[offset] != ',' {
          break;
        }
      }
      MoreMembersNow(members, if next.Close? then next.rest else Rest(), depth);
      if content[offset] != '}' {
        return None;
      }
      depth := depth - 1;
      Advance(1);
      r := Some(members);
    }
  }

  /** The loop of parse_number: at most 63 bytes go to the local buffer, and a NUL after them. */
  method CopyNumber(content: string, p: nat) returns (number: array<char>, n: nat)
    requires p < |content|
    ensures n == NumericRun(content[p..], 63) && n < number.Length == 64
    ensures number[..n] == content[p..][..n] && number[n] == NUL
  {
    hide NumericRun;
    ghost var s := content[p..];
    number := new char[64];
    n := 0;
    RunStart(s, 63);
    while n < 63 && p + n < |content| && Numeric(content[p + n])
      invariant 0 <= n <= 63 && n <= |s|
      invariant NumericRun(s, 63) == n + NumericRun(s[n..], 63 - n)
      invariant forall k | 0 <= k < n :: number[k] == s[k]
    {
      RunStep(s[n..], 63 - n);
      assert s[n..][1..] == s[n + 1..];
      number[n] := content[p + n];
      n := n + 1;
    }
    RunStep(s[n..], 63 - n);
    number[n] := NUL;
  }

  lemma RunStart(s: string, max: nat)
    ensures s[0..] == s && NumericRun(s, max) == 0 + NumericRun(s[0..], max - 0)
  {
    assert s[0..] == s;
  }

  lemma RunStep(s: string, max: nat)
    ensures s == "" || max == 0 || !Numeric(s[0]) ==> NumericRun(s, max) == 0
    ensures s != "" && max > 0 && Numeric(s[0]) ==> NumericRun(s, max) == 1 + NumericRun(s[1..], max - 1)
  {
  }

  /** cJSON_ParseWithOpts: the tree, and where in the text the parse ended. */
  method ParseWithOpts(text: string, requireNullTerminated: bool) returns (r: Option<Json>, parseEnd: nat)
    requires CString(text)
    ensures match Parse(text, requireNullTerminated)
            case Fail => r == None
            case Ok(v, rest) => r == Some(v) && parseEnd <= |text| && rest == text[parseEnd..] + [NUL]
  {
    hide ParseValue, SkipWs, Terminated;
    var buffer := new ParseBuffer(text);
    parseEnd := 0;
    assert buffer.Rest() == text + [NUL];
    buffer.SkipWhitespace();
    r := buffer.ReadValue();
    if r.None? {
      return;
    }
    if requireNullTerminated {
      buffer.SkipWhitespace();
      if buffer.content[buffer.offset] != NUL {
        return None, 0;
      }
    }
    parseEnd := buffer.offset;
    RestOfText(text, parseEnd);
  }

  lemma RestOfText(text: string, n: nat)
    requires n <= |text|
    ensures (text + [NUL])[n..] == text[n..] + [NUL]
  {
  }
}
