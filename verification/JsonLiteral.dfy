/** The loops over a string literal: its end, its escapes, its output bytes. */
module JsonLiteral {
  import opened Options
  import opened ByteXor
  import opened JsonSpec
  import opened JsonString

  // ---------- UTF-8, last byte first ----------

  /** A code point after n shifts by six bits. */
  function Shifted(cp: nat, n: nat): nat {
    if n == 0 then cp else Shifted(cp, n - 1) / 64
  }

  function Utf8Length(cp: nat): (n: nat)
    ensures 1 <= n <= 4
  {
    if cp < 0x80 then 1 else if cp < 0x800 then 2 else if cp < 0x10000 then 3 else 4
  }

  function FirstByteMark(n: nat): nat {
    if n <= 1 then 0 else if n == 2 then 0xC0 else if n == 3 then 0xE0 else 0xF0
  }

  /** The j-th of n bytes, for j > 0. */
  function TailByte(cp: nat, n: nat, j: nat): char
    requires j < n
  {
    (0x80 + Shifted(cp, n - 1 - j) % 64) as char
  }

  function FirstByte(cp: nat, n: nat): (c: int)
    requires n > 0
  {
    FirstByteMark(n) + Shifted(cp, n - 1)
  }

  /** The bytes of a code point are its shifts. */
  lemma EncodeByShifts(cp: nat)
    requires cp <= 0x10FFFF
    ensures var u, n := EncodeUtf8(cp), Utf8Length(cp);
            |u| == n
            && (forall j | 1 <= j < n :: u[j] == TailByte(cp, n, j))
            && FirstByte(cp, n) < 0x100 && u[0] == FirstByte(cp, n) as char
  {
    assert Shifted(cp, 0) == cp && Shifted(cp, 1) == cp / 64;
    assert Shifted(cp, 2) == cp / 64 / 64 == cp / 4096;
    assert Shifted(cp, 3) == cp / 4096 / 64 == cp / 262144;
  }

  /** The low byte of a code point; the masks of utf16_literal_to_utf8 leave nothing above it. */
  function LowByte(c: nat): (b: bv8)
    ensures b as nat == c % 256
  {
    ByteOfNumber(c % 256);
    (c % 256) as bv8
  }

  lemma TailMask(b: bv8)
    ensures ((b | 0x80) & 0xBF) as nat == 0x80 + b as nat % 64
  {
  }

  lemma LowSixBits(c: nat)
    ensures c % 256 % 64 == c % 64
  {
    assert c == 64 * (4 * (c / 256)) + c % 256;
  }

  function MaskOf(length: nat): bv8 {
    if length == 2 then 0xC0 else if length == 3 then 0xE0 else 0xF0
  }

  /** How many bits are left for the first of n bytes. */
  function FirstLimit(n: nat): nat {
    if n <= 1 then 0x80 else if n == 2 then 0x20 else if n == 3 then 0x10 else 0x08
  }

  lemma Small(b: bv8)
    ensures b as nat < 0x80 ==> b < 0x80
    ensures b as nat < 0x20 ==> b < 0x20
    ensures b as nat < 0x10 ==> b < 0x10
    ensures b as nat < 0x08 ==> b < 0x08
  {
  }

  lemma FirstMasks(b: bv8)
    ensures b < 0x80 ==> (b & 0x7F) as nat == b as nat
    ensures b < 0x20 ==> (b | 0xC0) as nat == 0xC0 + b as nat
    ensures b < 0x10 ==> (b | 0xE0) as nat == 0xE0 + b as nat
    ensures b < 0x08 ==> (b | 0xF0) as nat == 0xF0 + b as nat
  {
  }

  /** A continuation byte as the loop computes it. */
  function TailBits(b: bv8): (r: bv8)
    ensures r as nat == 0x80 + b as nat % 64
  {
    TailMask(b);
    (b | 0x80) & 0xBF
  }

  /** The first byte of a sequence of the given length. */
  function FirstBits(b: bv8, length: nat): (r: bv8)
    requires 1 <= length <= 4 && b as nat < FirstLimit(length)
    ensures r as nat == FirstByteMark(length) + b as nat
  {
    Small(b);
    FirstMasks(b);
    if length > 1 then b | MaskOf(length) else b & 0x7F
  }

  function MaskedTail(c: nat): (r: char)
    ensures r == (0x80 + c % 64) as char
  {
    LowSixBits(c);
    TailBits(LowByte(c)) as nat as char
  }

  function MaskedFirst(c: nat, length: nat): (r: char)
    requires 1 <= length <= 4 && c < FirstLimit(length)
    ensures r == (FirstByteMark(length) + c) as char
  {
    FirstBits(LowByte(c), length) as nat as char
  }

  lemma FirstFits(cp: nat)
    requires cp <= 0x10FFFF
    ensures Shifted(cp, Utf8Length(cp) - 1) < FirstLimit(Utf8Length(cp))
  {
    assert Shifted(cp, 1) == cp / 64;
    assert Shifted(cp, 2) == cp / 64 / 64 == cp / 4096;
    assert Shifted(cp, 3) == cp / 4096 / 64 == cp / 262144;
  }

  method WriteTailByte(c: nat, output: array<char>, i: nat)
    requires i < output.Length
    modifies output
    ensures output[i] == (0x80 + c % 64) as char
    ensures forall j | 0 <= j < output.Length && j != i :: output[j] == old(output[j])
  {
    output[i] := MaskedTail(c);
  }

  /** The end of utf16_literal_to_utf8: the bytes go to output from k on. */
  method WriteUtf8(codepoint: nat, output: array<char>, k: nat) returns (length: nat)
    requires codepoint <= 0x10FFFF && k + Utf8Length(codepoint) <= output.Length
    modifies output
    ensures length == |EncodeUtf8(codepoint)|
    ensures k + length <= output.Length && output[..k + length] == old(output[..k]) + EncodeUtf8(codepoint)
  {
    hide EncodeUtf8, FirstByteMark, FirstLimit, MaskedFirst;
    EncodeByShifts(codepoint);
    FirstFits(codepoint);
    length := Utf8Length(codepoint);
    hide Utf8Length;
    ghost var u := EncodeUtf8(codepoint);
    var position := length - 1;
    var c := codepoint;
    while position > 0
      invariant 0 <= position < length
      invariant c == Shifted(codepoint, length - 1 - position)
      invariant forall i | 0 <= i < k :: output[i] == old(output[i])
      invariant forall i | k + position < i < k + length :: output[i] == u[i - k]
    {
      assert u[position] == TailByte(codepoint, length, position);
      WriteTailByte(c, output, k + position);
      c := c / 64;
      position := position - 1;
    }
    output[k] := MaskedFirst(c, length);
    assert output[..k + length] == old(output[..k]) + u;
  }

  // ---------- Strings ----------

  /** What is left of the body from p on, with the closing quote at end. */
  function Body(content: string, p: nat, end: nat): string
    requires end < |content|
  {
    if p <= end then content[p..end + 1] else ""
  }

  lemma SliceOfSlice(s: string, p: nat, end: nat, a: nat, b: nat)
    requires p <= end < |s| && a <= b <= end + 1 - p
    ensures Body(s, p, end)[a..b] == s[p + a..p + b]
  {
    var t := Body(s, p, end);
    assert t == s[p..end + 1];
    assert forall i | a <= i < b :: t[i] == s[p + i];
  }

  method ParseHex4At(content: string, p: nat) returns (h: nat)
    requires p + 4 <= |content|
    ensures h == ParseHex4(content[p..p + 4])
  {
    h := 0;
    var i := 0;
    ghost var s := content[p..p + 4];
    while i < 4
      invariant 0 <= i <= 4
      invariant forall j | 0 <= j < i :: HexValue(s[j]).Some?
      invariant i == 0 ==> h == 0
      invariant i == 1 ==> h == HexValue(s[0]).value * 16
      invariant i == 2 ==> h == (HexValue(s[0]).value * 16 + HexValue(s[1]).value) * 16
      invariant i == 3 ==> h == ((HexValue(s[0]).value * 16 + HexValue(s[1]).value) * 16 + HexValue(s[2]).value) * 16
      invariant i == 4 ==> h == ParseHex4(s)
    {
      var digit := HexValue(content[p + i]);
      if digit.None? {
        return 0;
      }
      h := h + digit.value;
      if i < 3 {
        h := h * 16;
      }
      i := i + 1;
    }
  }

  /** utf16_literal_to_utf8 on the literal at p: sequence length 0 for a malformed one. */
  method Utf16LiteralToUtf8(content: string, p: nat, end: nat, output: array<char>, k: nat)
    returns (sequenceLength: nat, length: nat)
    requires p < end < |content|
    requires var l := Utf16Literal(Body(content, p, end)); k + (if l.Some? then |l.value.0| else 0) <= output.Length
    modifies output
    ensures var l := Utf16Literal(Body(content, p, end));
            if l.None? then sequenceLength == 0
            else
              sequenceLength == l.value.1 && length == |l.value.0| && k + length <= output.Length
              && output[..k + length] == old(output[..k]) + l.value.0
  {
    hide EncodeUtf8, ParseHex4;
    ghost var t := Body(content, p, end);
    sequenceLength, length := 0, 0;
    if end - p < 6 {
      return;
    }
    var first := ParseHex4At(content, p + 2);
    SliceOfSlice(content, p, end, 2, 6);
    if 0xDC00 <= first <= 0xDFFF {
      return;
    }
    var codepoint;
    var sequence;
    if 0xD800 <= first <= 0xDBFF {
      sequence := 12;
      if end - (p + 6) < 6 {
        return;
      }
      if content[p + 6] != '\\' || content[p + 7] != 'u' {
        return;
      }
      var second := ParseHex4At(content, p + 8);
      SliceOfSlice(content, p, end, 8, 12);
      if second < 0xDC00 || second > 0xDFFF {
        return;
      }
      codepoint := 0x10000 + first % 0x400 * 0x400 + second % 0x400;
    } else {
      sequence := 6;
      codepoint := first;
    }
    EncodeLength(codepoint);
    assert Utf16Literal(t) == Some((EncodeUtf8(codepoint), sequence));
    length := WriteUtf8(codepoint, output, k);
    sequenceLength := sequence;
  }

  lemma EncodeLength(cp: nat)
    requires cp <= 0x10FFFF
    ensures |EncodeUtf8(cp)| == Utf8Length(cp)
  {
  }

  /** Putting already decoded bytes in front of what is still to be decoded. */
  lemma PrependTwice(a: string, b: string, r: Option<string>)
    ensures Prepend(a, Prepend(b, r)) == Prepend(a + b, r)
  {
    if r.Some? {
      assert a + (b + r.value) == (a + b) + r.value;
    }
  }

  lemma BodyStep(content: string, p: nat, end: nat, n: nat)
    requires p < end < |content| && 0 < n <= end + 1 - p
    ensures Body(content, p, end)[n..] == Body(content, p + n, end)
  {
    var t := Body(content, p, end);
    assert t == content[p..end + 1];
  }

  /** What an escape that is not a \u literal stands for, as a byte or none. */
  method UnescapeByte(c: char) returns (r: Option<char>)
    ensures r == Unescape(c)
  {
    match c
    case 'b' => r := Some('\U{0008}');
    case 'f' => r := Some('\U{000C}');
    case 'n' => r := Some('\n');
    case 'r' => r := Some('\r');
    case 't' => r := Some('\t');
    case '\"' => r := Some(c);
    case '\\' => r := Some(c);
    case '/' => r := Some(c);
    case _ => r := None;
  }

  /** What is left of the body still fits behind k. */
  ghost predicate Fits(content: string, p: nat, end: nat, k: nat, capacity: nat, inside: bool)
    requires end < |content|
  {
    ScanOk(Body(content, p, end), inside) && k + Room(Body(content, p, end), inside) < capacity
  }

  /** Where a turn of the loop through the literal leads: from p to p', from k to k', with bytes written between. */
  ghost predicate Stepped(content: string, end: nat, p: nat, p': nat, k: nat, k': nat, bytes: string)
    requires end < |content|
  {
    p < p' <= end + 1 && k < k' && Decode(Body(content, p, end)) == Prepend(bytes, Decode(Body(content, p', end)))
  }

  /** A byte that is no backslash. */
  method CopyPlain(content: string, p: nat, end: nat, output: array<char>, k: nat, ghost inside: bool)
    requires p < end < |content| && content[p] != '\\'
    requires Fits(content, p, end, k, output.Length, inside)
    modifies output
    ensures Fits(content, p + 1, end, k + 1, output.Length, false) && k + 1 < output.Length
    ensures output[..k] == old(output[..k]) && Stepped(content, end, p, p + 1, k, k + 1, output[k..k + 1])
  {
    hide Decode, ScanOk, Room;
    ghost var t := Body(content, p, end);
    DecodeUnfold(t);
    PlainRoom(t, inside);
    BodyStep(content, p, end, 1);
    output[k] := content[p];
  }

  /** A backslash and u. */
  method DecodeUnicode(content: string, p: nat, end: nat, output: array<char>, k: nat, ghost inside: bool)
    returns (ok: bool, p': nat, k': nat, ghost inside': bool)
    requires p < end < |content| && content[p] == '\\' && content[p + 1] == 'u'
    requires Fits(content, p, end, k, output.Length, inside)
    modifies output
    ensures !ok ==> Decode(Body(content, p, end)) == None
    ensures ok ==> (
      Fits(content, p', end, k', output.Length, inside') && k < k' < output.Length
      && output[..k] == old(output[..k]) && Stepped(content, end, p, p', k, k', output[k..k']))
  {
    hide Decode, Utf16Literal, Fits, Stepped, Body;
    LiteralFits(content, p, end, k, output.Length, inside);
    ghost var l := Utf16Literal(Body(content, p, end));
    ghost var was := output[..k];
    var n, length := Utf16LiteralToUtf8(content, p, end, output, k);
    if n == 0 {
      return false, p, k, inside;
    }
    Appended(output, k, length, was, l.value.0);
    inside' := LiteralStep(content, p, end, k, output.Length, inside);
    return true, p + n, k + length, inside';
  }

  /** A literal that is well-formed fits, and one that is not refuses the string. */
  lemma LiteralFits(content: string, p: nat, end: nat, k: nat, capacity: nat, inside: bool)
    requires p < end < |content| && content[p] == '\\' && content[p + 1] == 'u'
    requires Fits(content, p, end, k, capacity, inside)
    ensures var l := Utf16Literal(Body(content, p, end));
            if l.None? then Decode(Body(content, p, end)) == None && k <= capacity
            else k + |l.value.0| < capacity && l.value.1 > 0
  {
    hide Decode, Utf16Literal, ScanOk, Room;
    var t := Body(content, p, end);
    DecodeUnfold(t);
    LiteralRoom(t, inside);
  }

  lemma LiteralStep(content: string, p: nat, end: nat, k: nat, capacity: nat, inside: bool) returns (inside': bool)
    requires p < end < |content| && content[p] == '\\' && content[p + 1] == 'u'
    requires Fits(content, p, end, k, capacity, inside) && Utf16Literal(Body(content, p, end)).Some?
    ensures var (u, n) := Utf16Literal(Body(content, p, end)).value;
            Fits(content, p + n, end, k + |u|, capacity, inside') && k < k + |u| < capacity
            && Stepped(content, end, p, p + n, k, k + |u|, u)
  {
    hide Decode, Utf16Literal, ScanOk, Room;
    var t := Body(content, p, end);
    var (u, n) := Utf16Literal(t).value;
    DecodeUnfold(t);
    Utf16Length(t);
    inside' := RoomPairs(t, inside, n / 2);
    BodyStep(content, p, end, n);
  }

  lemma Appended(output: array<char>, k: nat, n: nat, was: string, u: string)
    requires k + n <= output.Length && |was| == k && |u| == n && output[..k + n] == was + u
    ensures output[..k] == was && output[k..k + n] == u
  {
    assert output[..k] == output[..k + n][..k];
    assert output[k..k + n] == output[..k + n][k..];
  }

  /** A backslash and one byte. */
  method DecodeEscape(content: string, p: nat, end: nat, output: array<char>, k: nat, ghost inside: bool)
    returns (ok: bool, ghost inside': bool)
    requires p < end < |content| && content[p] == '\\' && content[p + 1] != 'u'
    requires Fits(content, p, end, k, output.Length, inside)
    modifies output
    ensures !ok ==> Decode(Body(content, p, end)) == None
    ensures ok ==> (
      Fits(content, p + 2, end, k + 1, output.Length, inside') && k + 1 < output.Length
      && output[..k] == old(output[..k]) && Stepped(content, end, p, p + 2, k, k + 1, output[k..k + 1]))
  {
    hide Decode, Unescape, ScanOk, Room;
    ghost var t := Body(content, p, end);
    DecodeUnfold(t);
    inside' := RoomTwo(t, inside);
    BodyStep(content, p, end, 2);
    var c := UnescapeByte(content[p + 1]);
    ok := c.Some?;
    if ok {
      output[k] := c.value;
    }
  }

  /** One turn of the loop through the literal. */
  method DecodeStep(content: string, p: nat, end: nat, output: array<char>, k: nat, ghost inside: bool)
    returns (ok: bool, p': nat, k': nat, ghost inside': bool)
    requires p < end < |content| && Fits(content, p, end, k, output.Length, inside)
    modifies output
    ensures !ok ==> Decode(Body(content, p, end)) == None
    ensures ok ==> (
      Fits(content, p', end, k', output.Length, inside') && k < k' < output.Length
      && output[..k] == old(output[..k]) && Stepped(content, end, p, p', k, k', output[k..k']))
  {
    hide Decode, Fits, Stepped, Body;
    if content[p] != '\\' {
      CopyPlain(content, p, end, output, k, inside);
      return true, p + 1, k + 1, false;
    }
    if content[p + 1] == 'u' {
      ok, p', k', inside' := DecodeUnicode(content, p, end, output, k, inside);
      return;
    }
    p', k' := p + 2, k + 1;
    ok, inside' := DecodeEscape(content, p, end, output, k, inside);
  }

  lemma LiteralRoom(t: string, inside: bool)
    requires ScanOk(t, inside)
    ensures Utf16Literal(t).Some? ==> |Utf16Literal(t).value.0| <= Room(t, inside)
  {
    hide ParseHex4, ScanOk, Room;
    Utf16Length(t);
    if Utf16Literal(t).Some? {
      var i := RoomPairs(t, inside, Utf16Literal(t).value.1 / 2);
    }
  }

  // ---------- The first pass ----------

  lemma ScanStep(content: string, end: nat)
    requires end < |content| && content[end] != '\"'
    ensures content[end] == '\\' && end + 1 >= |content| ==> ScanString(content[end..]) == None
    ensures content[end] != '\\' || end + 1 < |content| ==>
              var n := if content[end] == '\\' then 2 else 1;
              ScanString(content[end..]) == Shift(n, ScanString(content[end + n..]))
              && Escapes(content[end..]) == n - 1 + Escapes(content[end + n..])
  {
    var t := content[end..];
    assert t[1..] == content[end + 1..];
    assert |t| >= 2 ==> t[2..] == content[end + 2..];
  }

  lemma ShiftTwice(m: nat, n: nat, r: Option<nat>)
    ensures Shift(m, Shift(n, r)) == Shift(m + n, r)
    ensures Shift(0, r) == r
  {
  }

  /** Where the literal that starts after the quote at start - 1 ends, and how many escapes the pass counts. */
  method FindEnd(content: string, start: nat) returns (ok: bool, end: nat, skipped: nat)
    requires start <= |content|
    ensures ok <==> ScanString(content[start..]).Some?
    ensures ok ==> (
      start <= end < |content| && ScanString(content[start..]) == Some(end - start)
      && skipped == Escapes(content[start..]))
  {
    hide ScanString, Escapes, Shift;
    end, skipped := start, 0;
    ghost var all := ScanString(content[start..]);
    ShiftTwice(0, 0, all);
    while end < |content| && content[end] != '\"'
      invariant start <= end <= |content|
      invariant all == Shift(end - start, ScanString(content[end..]))
      invariant Escapes(content[start..]) == skipped + Escapes(content[end..])
    {
      ScanStep(content, end);
      ghost var n := if content[end] == '\\' then 2 else 1;
      if content[end] == '\\' {
        if end + 1 >= |content| {
          ShiftedEnd(end - start);
          return false, end, skipped;
        }
        skipped := skipped + 1;
        end := end + 1;
      }
      end := end + 1;
      ShiftTwice(end - n - start, n, ScanString(content[end..]));
    }
    ScanEnd(content[end..]);
    ShiftedEnd(end - start);
    ok := end < |content|;
  }

  lemma ShiftedEnd(n: nat)
    ensures Shift(n, None) == None && Shift(n, Some(0)) == Some(n)
  {
  }

  lemma ScanEnd(t: string)
    ensures t == "" ==> ScanString(t) == None
    ensures t != "" && t[0] == '\"' ==> ScanString(t) == Some(0) && Escapes(t) == 0
  {
  }

  // ---------- The whole literal ----------

  lemma CStrAppend(s: string, t: string)
    ensures CStr(s + [NUL] + t) == CStr(s)
  {
    var all := s + [NUL] + t;
    if s == "" || s[0] == NUL {
    } else {
      assert all[1..] == s[1..] + [NUL] + t;
      CStrAppend(s[1..], t);
    }
  }

  lemma LiteralSlices(content: string, p: nat, end: nat)
    requires p < end < |content|
    ensures var n := end - (p + 1);
            content[p + 1..][..n + 1] == Body(content, p + 1, end)
            && content[p..][1..n + 2] == Body(content, p + 1, end)
            && content[p..][n + 2..] == content[end + 1..]
  {
    assert Body(content, p + 1, end) == content[p + 1..end + 1];
  }

  /** parse_string at p: the C string in the output, and the position of the closing quote. */
  method ReadString(content: string, p: nat) returns (r: Option<string>, end: nat)
    requires p < |content| && Terminated(content[p..])
    ensures match ParseString(content[p..])
            case Fail => r == None
            case Ok(s, rest) => r == Some(s) && end < |content| && rest == content[end + 1..]
  {
    hide ScanString, Escapes, Decode, CStr, ScanOk, Room, Terminated, Body;
    r, end := None, p;
    if content[p] != '\"' {
      return;
    }
    assert content[p..][1..] == content[p + 1..];
    var ok, skipped;
    ok, end, skipped := FindEnd(content, p + 1);
    if !ok {
      return;
    }
    LiteralSlices(content, p, end);
    ScanGivesRoom(content[p + 1..]);
    var allocation := end - p - skipped;
    var output := new char[allocation + 1];
    var k;
    ok, k := DecodeBody(content, p + 1, end, output);
    if !ok {
      return;
    }
    ghost var bytes := output[..k];
    output[k] := NUL;
    assert output[..] == bytes + [NUL] + output[k + 1..];
    CStrAppend(bytes, output[k + 1..]);
    r := Some(CStr(output[..]));
  }

  /** The second pass. Every byte written lies inside the room that the first pass found. */
  method DecodeBody(content: string, start: nat, end: nat, output: array<char>) returns (ok: bool, k: nat)
    requires start <= end < |content|
    requires var t := Body(content, start, end); ScanOk(t, false) && Room(t, false) < output.Length
    modifies output
    ensures ok <==> Decode(Body(content, start, end)).Some?
    ensures ok ==> k < output.Length && Decode(Body(content, start, end)) == Some(output[..k])
  {
    hide Decode, ScanOk, Room, Body;
    var p := start;
    k := 0;
    ghost var inside := false;
    ghost var all := Decode(Body(content, start, end));
    assert output[..0] == "";
    PrependNothing(all);
    while p < end
      invariant start <= p <= end + 1 && k < output.Length
      invariant Fits(content, p, end, k, output.Length, inside)
      invariant all == Prepend(output[..k], Decode(Body(content, p, end)))
      decreases end + 1 - p
    {
      ghost var was := output[..k];
      var p', k';
      ok, p', k', inside := DecodeStep(content, p, end, output, k, inside);
      if !ok {
        return false, k;
      }
      PrependTwice(was, output[k..k'], Decode(Body(content, p', end)));
      assert output[..k'] == was + output[k..k'];
      p, k := p', k';
    }
    BodyEnd(content, p, end);
    DecodeNothing(Body(content, p, end));
    assert output[..k] + "" == output[..k];
    ok := true;
  }

  lemma PrependNothing(r: Option<string>)
    ensures Prepend("", r) == r
  {
    if r.Some? {
      assert "" + r.value == r.value;
    }
  }

  lemma BodyEnd(content: string, p: nat, end: nat)
    requires end <= p && end < |content|
    ensures |Body(content, p, end)| <= 1
  {
  }
}
