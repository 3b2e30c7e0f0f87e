/** The printer as it runs: text goes into a buffer that grows, or into a caller's buffer that does not.
    A buffer's array is exactly as long as the capacity it records, so every store is inside what was granted. */
module JsonPrinter {
  import opened Options
  import opened JsonSpec
  import opened JsonRoundTrip

  const INT_MAX: nat := 0x7FFF_FFFF

  // ---------- The text and the room it needs ----------

  /** The capacity a value's text asks for: print_number leaves room for one byte less than the others. */
  function Need(v: Json, format: bool, depth: nat): nat {
    |Print(v, format, depth)| + if v.Number? then 1 else 2
  }

  /** What the first call of ensure asks for. */
  function FirstRequest(v: Json, format: bool): nat {
    match v
    case Null => 5
    case False => 6
    case True => 5
    case Number(m, _) => |PrintInt(m)|
    case String(s) => |Quote(s)| + 1
    case Array(_) => 1
    case Object(_) => |Open(format)| + 1
  }

  /** Characters that escaping adds. */
  function EscapeExtra(s: string): nat {
    if s == "" then 0 else |EscapeChar(s[0])| - 1 + EscapeExtra(s[1..])
  }

  lemma EscapeOne(c: char)
    ensures |EscapeChar(c)| == 1 ==> EscapeChar(c) == [c]
  {
  }

  lemma {:induction false} EscapeLength(s: string)
    ensures |Escape(s)| == |s| + EscapeExtra(s)
    ensures EscapeExtra(s) == 0 ==> Escape(s) == s
  {
    hide EscapeChar;
    if s != "" {
      EscapeLength(s[1..]);
      EscapeOne(s[0]);
    }
  }

  lemma {:induction false} EscapeSplit(s: string, t: string)
    ensures Escape(s + t) == Escape(s) + Escape(t) && EscapeExtra(s + t) == EscapeExtra(s) + EscapeExtra(t)
  {
    if s == "" {
      assert s + t == t;
    } else {
      assert (s + t)[1..] == s[1..] + t;
      EscapeSplit(s[1..], t);
    }
  }

  lemma EscapeNext(s: string, i: nat)
    requires i < |s|
    ensures Escape(s[..i + 1]) == Escape(s[..i]) + EscapeChar(s[i])
    ensures EscapeExtra(s[..i + 1]) == EscapeExtra(s[..i]) + |EscapeChar(s[i])| - 1
    ensures |Escape(s[..i + 1])| <= |Escape(s)|
  {
    assert s[..i + 1] == s[..i] + [s[i]];
    EscapeSplit(s[..i], [s[i]]);
    assert Escape([s[i]]) == EscapeChar(s[i]) + Escape("");
    assert s == s[..i + 1] + s[i + 1..];
    EscapeSplit(s[..i + 1], s[i + 1..]);
  }

  lemma CommaText(format: bool, last: bool)
    ensures last ==> Comma(format, last) == ""
  {
  }

  lemma ArrayText(items: seq<Json>, format: bool, depth: nat)
    ensures var p := PrintItems(items, format, depth + 1);
            Print(Array(items), format, depth) == "[" + p + "]" && Need(Array(items), format, depth) == |p| + 4
  {
    hide PrintItems;
  }

  /** The printer's loop takes the items from the left, after what it has written. */
  lemma ItemsText(items: seq<Json>, i: nat, format: bool, depth: nat, done: string)
    requires i < |items|
    ensures var text := Print(items[i], format, depth) + Comma(format, i + 1 == |items|);
            done + PrintItems(items[i..], format, depth) == done + text + PrintItems(items[i + 1..], format, depth)
  {
    hide Print, Comma;
    assert items[i..][1..] == items[i + 1..];
  }

  lemma Glue(was: string, done: string, now: string, before: string, a: string, b: string)
    requires before == was + done && now == before + a + b
    ensures now == was + (done + (a + b))
  {
  }

  lemma NoItemsText(items: seq<Json>, format: bool, depth: nat)
    ensures PrintItems(items[|items|..], format, depth) == ""
  {
  }

  /** The start of a member's line. */
  function KeyText(key: string, format: bool, depth: nat): string {
    Indent(format, depth) + Quote(key) + Colon(format)
  }

  lemma IndentAndColon(format: bool, depth: nat)
    ensures Indent(format, depth) == if format then Tabs(depth) else ""
    ensures |Colon(format)| > 0
  {
  }

  lemma MemberParts(m: Member, format: bool, depth: nat, last: bool)
    ensures MemberText(m, format, depth, last)
         == KeyText(m.key, format, depth) + Print(m.value, format, depth) + LineEnd(format, last)
  {
    hide Quote, Print, Indent, Colon, LineEnd;
  }

  lemma KeyGlue(was: string, a: string, b: string, c: string)
    ensures was + a + b + c == was + (a + b + c)
  {
  }

  lemma MembersText(members: seq<Member>, i: nat, format: bool, depth: nat, done: string)
    requires i < |members|
    ensures done + PrintMembers(members[i..], format, depth)
         == done + MemberText(members[i], format, depth, i + 1 == |members|) + PrintMembers(members[i + 1..], format, depth)
  {
    hide Print, Indent, Quote, Colon, LineEnd;
    assert members[i..][1..] == members[i + 1..];
  }

  lemma NoMembersText(members: seq<Member>, format: bool, depth: nat)
    ensures PrintMembers(members[|members|..], format, depth) == ""
  {
  }

  lemma ObjectParts(members: seq<Member>, format: bool, depth: nat)
    ensures var p := PrintMembers(members, format, depth + 1);
            Print(Object(members), format, depth) == (Open(format) + p) + (Indent(format, depth) + "}")
            && Need(Object(members), format, depth) == |Open(format)| + |p| + |Indent(format, depth)| + 3
  {
    hide PrintMembers;
  }

  // ---------- The buffer ----------

  class PrintBuffer {
    var buffer: array<char>
    var length: nat
    var offset: nat
    /** How many arrays and objects are open. */
    var depth: nat
    const noalloc: bool
    const format: bool
    const hasRealloc: bool
    /** Has a byte that lies behind the first block been copied? */
    var strayed: bool
    /** Is the first block empty and copied by hand when it grows? */
    ghost const bare: bool

    ghost predicate Valid()
      reads this`buffer, this`length, this`offset, this`strayed
    {
      length <= INT_MAX
      && (length == 0 ==> offset == 0)
      && (length > 0 ==> length == buffer.Length && offset < length)
      && (strayed <==> bare && length > 0)
      && (length == 0 && !noalloc && !hasRealloc ==> (bare <==> buffer.Length == 0))
      && (bare ==> !noalloc && !hasRealloc)
    }

    /** The text so far. */
    ghost function Text(): string
      reads this`buffer, this`offset, buffer
      requires offset <= buffer.Length
    {
      buffer[..offset]
    }

    /** How long the text with its NUL can get. */
    ghost function Capacity(): nat
      reads this`length
    {
      if noalloc then length else INT_MAX
    }

    constructor (buffer: array<char>, length: nat, noalloc: bool, format: bool, hasRealloc: bool)
      ensures this.buffer == buffer && this.length == length && offset == 0 && depth == 0
      ensures this.noalloc == noalloc && this.format == format && this.hasRealloc == hasRealloc
      ensures !strayed && bare == (length == 0 && buffer.Length == 0 && !noalloc && !hasRealloc)
    {
      this.buffer, this.length, this.offset, this.depth := buffer, length, 0, 0;
      this.noalloc, this.format, this.hasRealloc := noalloc, format, hasRealloc;
      strayed := false;
      bare := length == 0 && buffer.Length == 0 && !noalloc && !hasRealloc;
    }

    /** Room for needed more bytes and a NUL. */
    method Ensure(needed: nat) returns (ok: bool)
      requires Valid()
      modifies this`buffer, this`length, this`strayed
      ensures Valid()
      ensures ok <==> offset + needed + 1 <= Capacity()
      ensures ok ==> offset + needed + 1 <= length
      ensures ok ==>
              var size := offset + needed + 1;
              length == if size <= old(length) then old(length) else if size > 0x3fffffff then 0x7fffffff else 2 * size
      ensures length >= old(length) && (!ok ==> length == old(length))
      ensures Capacity() == old(Capacity())
      ensures buffer == old(buffer) || (fresh(buffer) && !noalloc)
      ensures offset <= old(buffer.Length) ==> offset <= buffer.Length && Text() == old(Text())
    {
      if length > 0 && offset >= length {
        return false;
      }
      if needed > INT_MAX {
        return false;
      }
      var size := needed + offset + 1;
      if size <= length {
        return true;
      }
      if noalloc {
        return false;
      }
      var newsize;
      if size > INT_MAX / 2 {
        if size <= INT_MAX {
          newsize := INT_MAX;
        } else {
          return false;
        }
      } else {
        newsize := size * 2;
      }
      var newbuffer := new char[newsize];
      if hasRealloc {
        CopyBytes(newbuffer, buffer, if buffer.Length < newsize then buffer.Length else newsize);
      } else {
        strayed := strayed || offset + 1 > buffer.Length;
        CopyBytes(newbuffer, buffer, Min(offset + 1, buffer.Length));
      }
      length := newsize;
      buffer := newbuffer;
      ok := true;
    }

    /** was, then text, then a NUL are in the buffer, and the offset is somewhere inside text or behind it. */
    ghost predicate Printed(was: string, text: string)
      reads this`buffer, this`length, this`offset, this`strayed, buffer
    {
      Valid() && |was| <= offset <= |was| + |text| < length
      && buffer[..|was| + |text|] == was + text && buffer[|was| + |text|] == NUL
    }

    /** update_offset: past the text, up to its NUL. */
    method UpdateOffset(ghost was: string, ghost text: string)
      requires CString(text) && Printed(was, text)
      modifies this`offset
      ensures Valid() && offset == |was| + |text| && Text() == was + text
    {
      ghost var end := |was| + |text|;
      forall i | |was| <= i < end
        ensures buffer[i] != NUL
      {
        assert buffer[i] == (was + text)[i] == text[i - |was|];
        assert text[i - |was|] in text;
      }
      while buffer[offset] != NUL
        invariant |was| <= offset <= end
        decreases end - offset
      {
        offset := offset + 1;
      }
    }

    /** A fixed word: ensure, then strcpy. */
    method PrintWord(word: string) returns (ok: bool)
      requires Valid() && offset <= buffer.Length
      modifies this, buffer
      ensures Kept() && depth == old(depth)
      ensures ok <==> old(offset) + |word| + 2 <= old(Capacity())
      ensures ok ==> Printed(old(Text()), word)
      ensures Grown(|word| + 1)
    {
      ok := Ensure(|word| + 1);
      if ok {
        PutTerminated(word);
      }
    }

    /** The bytes of text and a NUL, in room that is granted. */
    method PutTerminated(text: string)
      requires Valid() && offset + |text| < length
      modifies buffer
      ensures Printed(old(Text()), text)
    {
      Store(buffer, offset, text);
      ghost var was := old(Text());
      var end := offset + |text|;
      assert buffer[..end] == was + text;
      buffer[end] := NUL;
      assert buffer[..end] == was + text;
    }

    /** print_number; the text is what the format "%1.15g" makes of an integer below 10^15. */
    method PrintNumber(m: int) returns (ok: bool)
      requires Valid() && offset <= buffer.Length
      modifies this, buffer
      ensures Kept() && depth == old(depth)
      ensures ok <==> old(offset) + |PrintInt(m)| + 1 <= old(Capacity())
      ensures ok ==> Printed(old(Text()), PrintInt(m))
      ensures Grown(|PrintInt(m)|)
    {
      hide PrintInt;
      var number := PrintInt(m);
      ok := Ensure(|number|);
      if ok {
        PutTerminated(number);
        offset := offset + |number|;
      }
    }

    /** print_string_ptr. */
    method PrintString(s: string) returns (ok: bool)
      requires Valid() && offset <= buffer.Length
      modifies this, buffer
      ensures Kept() && depth == old(depth)
      ensures ok <==> old(offset) + |Quote(s)| + 2 <= old(Capacity())
      ensures ok ==> Printed(old(Text()), Quote(s))
      ensures Grown(|Quote(s)| + 1)
    {
      hide Escape, EscapeExtra;
      var escapes := CountEscapes(s);
      EscapeLength(s);
      ok := Ensure(|s| + escapes + 3);
      if ok {
        StoreQuoted(buffer, offset, s, escapes);
      }
    }

    /** ensure, then the bytes of text, perhaps a NUL behind them, and the offset moves on. */
    method Append(text: string, spare: nat, terminate: bool) returns (ok: bool)
      requires Valid() && offset <= buffer.Length && (terminate ==> spare > 0)
      modifies this, buffer
      ensures Kept() && depth == old(depth)
      ensures ok <==> old(offset) + |text| + spare + 1 <= old(Capacity())
      ensures ok ==> offset < length && Text() == old(Text()) + text
      ensures Grown(|text| + spare)
    {
      ok := Ensure(|text| + spare);
      if ok {
        Put(text, terminate);
      }
    }

    /** The bytes of text, and perhaps a NUL behind them, in room that is granted. */
    method Put(text: string, terminate: bool)
      requires offset + |text| < buffer.Length
      modifies this`offset, buffer
      ensures offset == old(offset) + |text| && Text() == old(Text()) + text
    {
      Store(buffer, offset, text);
      offset := offset + |text|;
      if terminate {
        buffer[offset] := NUL;
      }
    }

    /** Indentation, key and colon of a member. */
    method PrintKey(key: string) returns (ok: bool)
      requires Valid() && offset < buffer.Length && CString(key)
      modifies this, buffer
      ensures Kept() && depth == old(depth)
      ensures ok <==> old(offset) + |KeyText(key, format, depth)| + 1 <= old(Capacity())
      ensures ok ==> offset < buffer.Length && Text() == old(Text()) + KeyText(key, format, depth)
    {
      hide Quote, Indent, Colon, Printed;
      IndentAndColon(format, depth);
      EscapeCString(key);
      ghost var was, indent := Text(), Indent(format, depth);
      if format {
        ok := Append(Tabs(depth), 0, false);
        if !ok {
          return;
        }
      }
      assert Text() == was + indent;
      ok := PrintString(key);
      if !ok {
        return;
      }
      UpdateOffset(was + indent, Quote(key));
      ok := Append(Colon(format), 0, false);
      if ok {
        KeyGlue(was, indent, Quote(key), Colon(format));
      }
    }

    /** The end of an array or object. */
    method Close(ghost was: string, ghost body: string, word: string) returns (ok: bool)
      requires Valid() && offset <= buffer.Length && depth > 0 && Text() == was + body
      modifies this, buffer
      ensures Kept() && (ok ==> depth == old(depth) - 1)
      ensures ok <==> old(offset) + |word| + 2 <= old(Capacity())
      ensures ok ==> Printed(was, body + word)
    {
      hide Printed;
      ok := PrintWord(word);
      if ok {
        PrintedMore(was, body, word);
        depth := depth - 1;
      }
    }

    lemma PrintedMore(was: string, a: string, b: string)
      requires Printed(was + a, b)
      ensures Printed(was, a + b)
    {
      assert was + (a + b) == was + a + b;
    }

    /** What every printing method leaves as it was. */
    twostate predicate Kept()
      reads this
    {
      Valid() && Capacity() == old(Capacity())
      && (buffer == old(buffer) || (fresh(buffer) && !noalloc)) && length >= old(length)
    }

    /** An empty buffer has grown exactly if its first request was granted. */
    twostate predicate Grown(request: nat)
      reads this
    {
      old(length) == 0 && !noalloc ==> (length > 0 <==> request + 1 <= INT_MAX)
    }
  }

  function Min(a: nat, b: nat): nat {
    if a < b then a else b
  }

  /** Bytes to consecutive addresses. */
  method Store(buffer: array<char>, at: nat, text: string)
    requires at + |text| <= buffer.Length
    modifies buffer
    ensures buffer[..at + |text|] == old(buffer[..at]) + text
    ensures buffer[at + |text|..] == old(buffer[at + |text|..])
    ensures forall i | 0 <= i < |text| :: buffer[at + i] == text[i]
  {
    forall i | 0 <= i < |text| {
      buffer[at + i] := text[i];
    }
  }

  /** The first loop of print_string_ptr. */
  method CountEscapes(s: string) returns (n: nat)
    ensures n == EscapeExtra(s)
  {
    hide EscapeExtra;
    n := 0;
    var i := 0;
    NoEscapes();
    while i < |s|
      invariant 0 <= i <= |s|
      invariant n == EscapeExtra(s[..i])
    {
      EscapeNext(s, i);
      var c := s[i];
      if c in "\"\\\U{0008}\U{000C}\n\r\t" {
        n := n + 1;
      } else if c < ' ' {
        n := n + 5;
      }
      i := i + 1;
    }
    assert s[..|s|] == s;
  }

  lemma NoEscapes()
    ensures EscapeExtra("") == 0 && Escape("") == ""
  {
  }

  lemma QuoteParts(was: string, s: string)
    ensures was + "\"" + Escape(s) + "\"" == was + Quote(s)
  {
    hide Escape;
  }

  /** The two ways of print_string_ptr to write the literal and its NUL. */
  method StoreQuoted(output: array<char>, at: nat, s: string, escapes: nat)
    requires escapes == EscapeExtra(s) && at + |s| + escapes + 3 <= output.Length
    modifies output
    ensures |Quote(s)| == |s| + escapes + 2
    ensures output[..at + |Quote(s)|] == old(output[..at]) + Quote(s) && output[at + |Quote(s)|] == NUL
  {
    hide Escape, EscapeExtra, EscapeChar;
    EscapeLength(s);
    ghost var was := output[..at];
    output[at] := '\"';
    var end := at + 1 + |s| + escapes;
    assert output[..at + 1] == was + "\"";
    if escapes == 0 {
      Store(output, at + 1, s);
    } else {
      StoreEscaped(output, at + 1, s, end);
    }
    assert output[..end] == was + "\"" + Escape(s);
    Store(output, end, "\"");
    QuoteParts(was, s);
    output[end + 1] := NUL;
  }

  method StoreEscaped(output: array<char>, start: nat, s: string, ghost end: nat)
    requires end == start + |Escape(s)| < output.Length
    modifies output
    ensures output[..end] == old(output[..start]) + Escape(s)
  {
    hide Escape, EscapeExtra, EscapeChar;
    ghost var was := output[..start];
    NoEscapes();
    var i := 0;
    var at := start;
    while i < |s|
      invariant 0 <= i <= |s|
      invariant at == start + |Escape(s[..i])| <= end
      invariant output[..at] == was + Escape(s[..i])
    {
      EscapeNext(s, i);
      at := StoreChar(output, at, s[i]);
      i := i + 1;
    }
    assert s[..|s|] == s;
  }

  /** sprintf with u%04x. It leaves a NUL behind, where a later byte goes. */
  method StoreControl(output: array<char>, at: nat, c: char)
    requires c < ' ' && at + 5 < output.Length
    modifies output
    ensures output[..at + 5] == old(output[..at]) + "u00" + [HexDigit(c as nat / 16), HexDigit(c as nat % 16)]
  {
    var text := "u00" + [HexDigit(c as nat / 16), HexDigit(c as nat % 16)];
    Store(output, at, text + [NUL]);
    assert output[..at + 5] == output[..at + 6][..at + 5];
  }

  /** One character of the second loop. */
  method StoreChar(output: array<char>, at: nat, c: char) returns (next: nat)
    requires at + |EscapeChar(c)| < output.Length
    modifies output
    ensures next == at + |EscapeChar(c)|
    ensures output[..next] == old(output[..at]) + EscapeChar(c)
  {
    if c > '\U{001F}' && c != '\"' && c != '\\' {
      Store(output, at, [c]);
      return at + 1;
    }
    ghost var was := output[..at];
    output[at] := '\\';
    assert output[..at + 1] == was + "\\";
    var letter;
    match c {
      case '\\' => letter := '\\';
      case '\"' => letter := '\"';
      case '\U{0008}' => letter := 'b';
      case '\U{000C}' => letter := 'f';
      case '\n' => letter := 'n';
      case '\r' => letter := 'r';
      case '\t' => letter := 't';
      case _ =>
        StoreControl(output, at + 1, c);
        return at + 6;
    }
    output[at + 1] := letter;
    next := at + 2;
  }

  /** memcpy between two blocks. */
  method CopyBytes(target: array<char>, source: array<char>, n: nat)
    requires n <= target.Length && n <= source.Length && target != source
    modifies target
    ensures target[..n] == source[..n] && target[n..] == old(target[n..])
  {
    forall i | 0 <= i < n {
      target[i] := source[i];
    }
  }
}
