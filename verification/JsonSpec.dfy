/** JSON values, the text cJSON prints for them, and what cJSON's parser reads from a text.
    A char stands for one byte. A text to parse is a C string with its terminating NUL. */
module JsonSpec {

  import opened Options

  // ---------- Values ----------

  /** A number as read: mantissa times ten to the exponent. */
  datatype Json =
    | Null
    | False
    | True
    | Number(mantissa: int, exponent: int)
    | String(s: string)
    | Array(items: seq<Json>)
    | Object(members: seq<Member>)

  datatype Member = Member(key: string, value: Json)

  const NUL: char := '\U{0000}'

  /** A C string holds no NUL. */
  predicate CString(s: string) {
    NUL !in s
  }

  /** The values whose printing is modelled: strings are C strings, numbers are integers below 10^15. */
  predicate Printable(v: Json) {
    match v
    case Null => true
    case False => true
    case True => true
    case Number(m, e) => e == 0 && -1_000_000_000_000_000 < m < 1_000_000_000_000_000
    case String(s) => CString(s)
    case Array(items) => forall i | 0 <= i < |items| :: Printable(items[i])
    case Object(members) => forall i | 0 <= i < |members| :: CString(members[i].key) && Printable(members[i].value)
  }

  // ---------- Printing ----------

  function HexDigit(n: nat): char
    requires n < 16
  {
    if n < 10 then '0' + n as char else 'a' + (n - 10) as char
  }

  function EscapeChar(c: char): (e: string)
    ensures |e| > 0
  {
    if c == '\"' then "\\\""
    else if c == '\\' then "\\\\"
    else if c == '\U{0008}' then "\\b"
    else if c == '\U{000C}' then "\\f"
    else if c == '\n' then "\\n"
    else if c == '\r' then "\\r"
    else if c == '\t' then "\\t"
    else if c < ' ' then "\\u00" + [HexDigit(c as nat / 16), HexDigit(c as nat % 16)]
    else [c]
  }

  function Escape(s: string): string {
    if s == "" then "" else EscapeChar(s[0]) + Escape(s[1..])
  }

  function Quote(s: string): string {
    "\"" + Escape(s) + "\""
  }

  function Digits(n: nat): (d: string)
    ensures |d| > 0
  {
    if n < 10 then ['0' + n as char] else Digits(n / 10) + ['0' + (n % 10) as char]
  }

  function PrintInt(n: int): string {
    if n < 0 then "-" + Digits(-n) else Digits(n)
  }

  function Tabs(n: nat): (t: string)
    ensures |t| == n
  {
    seq(n, _ => '\t')
  }

  function Indent(format: bool, depth: nat): string {
    if format then Tabs(depth) else ""
  }

  function Open(format: bool): string {
    if format then "{\n" else "{"
  }

  function Colon(format: bool): string {
    if format then ":\t" else ":"
  }

  /** Between array items. */
  function Comma(format: bool, last: bool): string {
    if last then "" else if format then ", " else ","
  }

  /** After an object member. */
  function LineEnd(format: bool, last: bool): string {
    (if last then "" else ",") + (if format then "\n" else "")
  }

  /** The text of a value at a nesting depth, unformatted or formatted. */
  function Print(v: Json, format: bool, depth: nat): string
    decreases v, 0
  {
    match v
    case Null => "null"
    case False => "false"
    case True => "true"
    case Number(m, _) => PrintInt(m)
    case String(s) => Quote(s)
    case Array(items) => "[" + PrintItems(items, format, depth + 1) + "]"
    case Object(members) =>
      Open(format) + PrintMembers(members, format, depth + 1) + Indent(format, depth) + "}"
  }

  function PrintItems(items: seq<Json>, format: bool, depth: nat): string
    decreases items, 1
  {
    if items == [] then ""
    else
      Print(items[0], format, depth)
      + Comma(format, |items| == 1)
      + PrintItems(items[1..], format, depth)
  }

  function PrintMembers(members: seq<Member>, format: bool, depth: nat): string
    decreases members, 1
  {
    if members == [] then ""
    else
      Indent(format, depth) + Quote(members[0].key) + Colon(format)
      + Print(members[0].value, format, depth)
      + LineEnd(format, |members| == 1)
      + PrintMembers(members[1..], format, depth)
  }

  /** A member's line. */
  function MemberText(m: Member, format: bool, depth: nat, last: bool): string {
    Indent(format, depth) + Quote(m.key) + Colon(format) + Print(m.value, format, depth) + LineEnd(format, last)
  }

  /** How deeply arrays and objects are nested. */
  function Nesting(v: Json): nat {
    match v
    case Array(items) => 1 + NestingItems(items)
    case Object(members) => 1 + NestingMembers(members)
    case _ => 0
  }

  function Max(a: nat, b: nat): nat {
    if a < b then b else a
  }

  function NestingItems(items: seq<Json>): nat {
    if items == [] then 0 else Max(Nesting(items[0]), NestingItems(items[1..]))
  }

  function NestingMembers(members: seq<Member>): nat {
    if members == [] then 0 else Max(Nesting(members[0].value), NestingMembers(members[1..]))
  }

  // ---------- Reading: the rest of the input is passed along ----------

  datatype Result<+T> = Fail | Ok(value: T, rest: string)

  const NESTING_LIMIT: nat := 1000

  /** The rest of a C string with its NUL. */
  predicate Terminated(s: string) {
    |s| > 0 && s[|s| - 1] == NUL && forall i | 0 <= i < |s| - 1 :: s[i] != NUL
  }

  /** Behind a byte of the string itself a C string goes on. */
  lemma Behind(s: string, n: nat)
    requires Terminated(s) && 0 < n <= |s| && s[n - 1] != NUL
    ensures n < |s| && Terminated(s[n..])
  {
  }

  /** Whitespace is every byte up to 32, the NUL included; at the end the cursor steps back onto the NUL. */
  function SkipWs(s: string): (r: string)
    requires Terminated(s)
    ensures Terminated(r) && |r| <= |s|
  {
    if s[0] <= ' ' && |s| > 1 then SkipWs(s[1..]) else s
  }

  // ---------- Strings ----------

  function HexValue(c: char): (r: Option<nat>)
    ensures r.Some? ==> r.value < 16
  {
    if '0' <= c <= '9' then Some(c as nat - '0' as nat)
    else if 'A' <= c <= 'F' then Some(10 + c as nat - 'A' as nat)
    else if 'a' <= c <= 'f' then Some(10 + c as nat - 'a' as nat)
    else None
  }

  /** parse_hex4: 0 if one of the four bytes is no hexadecimal digit. */
  function ParseHex4(s: string): (h: nat)
    requires |s| >= 4
    ensures h < 0x10000
  {
    match (HexValue(s[0]), HexValue(s[1]), HexValue(s[2]), HexValue(s[3]))
    case (Some(a), Some(b), Some(c), Some(d)) => ((a * 16 + b) * 16 + c) * 16 + d
    case _ => 0
  }

  /** The bytes the code emits for a code point: continuation bytes from the back, then the first byte. */
  function EncodeUtf8(cp: nat): (u: string)
    requires cp <= 0x10FFFF
    ensures 1 <= |u| <= 4
  {
    if cp < 0x80 then [cp as char]
    else if cp < 0x800 then [(0xC0 + cp / 64) as char, (0x80 + cp % 64) as char]
    else if cp < 0x10000 then [(0xE0 + cp / 4096) as char, (0x80 + cp / 64 % 64) as char, (0x80 + cp % 64) as char]
    else [(0xF0 + cp / 262144) as char, (0x80 + cp / 4096 % 64) as char, (0x80 + cp / 64 % 64) as char, (0x80 + cp % 64) as char]
  }

  /** utf16_literal_to_utf8 at \u; t runs up to and including the byte at input_end, where the closing
      quote is. The value is the UTF-8 bytes and the number of bytes read. */
  function Utf16Literal(t: string): (r: Option<(string, nat)>)
    ensures r.Some? ==> (r.value.1 == 6 || r.value.1 == 12) && r.value.1 <= |t| - 1 && 1 <= |r.value.0| <= 4
  {
    if |t| - 1 < 6 then None else
      var first := ParseHex4(t[2..6]);
      if 0xDC00 <= first <= 0xDFFF then None
      else if 0xD800 <= first <= 0xDBFF then
        if |t| - 1 < 12 || t[6] != '\\' || t[7] != 'u' then None else
          var second := ParseHex4(t[8..12]);
          if second < 0xDC00 || second > 0xDFFF then None
          else Some((EncodeUtf8(0x10000 + first % 0x400 * 0x400 + second % 0x400), 12))
      else Some((EncodeUtf8(first), 6))
  }

  function Unescape(c: char): Option<char> {
    if c == 'b' then Some('\U{0008}')
    else if c == 'f' then Some('\U{000C}')
    else if c == 'n' then Some('\n')
    else if c == 'r' then Some('\r')
    else if c == 't' then Some('\t')
    else if c == '\"' || c == '\\' || c == '/' then Some(c)
    else None
  }

  /** The second pass over a string literal: t is what is left of the body, with the closing quote. */
  function Decode(t: string): Option<string>
    decreases |t|
  {
    if |t| <= 1 then Some("")
    else if t[0] != '\\' then Prepend([t[0]], Decode(t[1..]))
    else if t[1] == 'u' then
      match Utf16Literal(t)
      case None => None
      case Some((bytes, n)) => Prepend(bytes, Decode(t[n..]))
    else
      match Unescape(t[1])
      case None => None
      case Some(c) => Prepend([c], Decode(t[2..]))
  }

  function Prepend(s: string, r: Option<string>): Option<string> {
    match r
    case None => None
    case Some(t) => Some(s + t)
  }

  /** The first pass: where the closing quote is. An escape hides the byte after the backslash. */
  function ScanString(t: string): (r: Option<nat>)
    ensures r.Some? ==> r.value < |t| && t[r.value] == '\"'
    decreases |t|
  {
    if t == "" then None
    else if t[0] == '\"' then Some(0)
    else
      var n := if t[0] == '\\' then 2 else 1;
      if |t| < n then None else
        match ScanString(t[n..])
        case None => None
        case Some(k) => Some(n + k)
  }

  function Shift(n: nat, r: Option<nat>): Option<nat> {
    match r
    case None => None
    case Some(k) => Some(n + k)
  }

  /** What C sees of a byte buffer: the part before the first NUL. */
  function CStr(s: string): string {
    if s == "" || s[0] == NUL then "" else [s[0]] + CStr(s[1..])
  }

  function ParseString(s: string): (r: Result<string>)
    requires Terminated(s)
    ensures r.Ok? ==> Terminated(r.rest) && |r.rest| < |s|
  {
    if s[0] != '\"' then Fail else
      match ScanString(s[1..])
      case None => Fail
      case Some(n) =>
        match Decode(s[1..n + 2])
        case None => Fail
        case Some(out) => Ok(CStr(out), s[n + 2..])
  }

  // ---------- Numbers ----------

  predicate Digit(c: char) {
    '0' <= c <= '9'
  }

  predicate Numeric(c: char) {
    Digit(c) || c == '+' || c == '-' || c == 'e' || c == 'E' || c == '.'
  }

  /** Length of the run of numeric bytes, at most max of them. */
  function NumericRun(s: string, max: nat): (n: nat)
    ensures n <= |s| && n <= max
    ensures forall i | 0 <= i < n :: Numeric(s[i])
  {
    if s == "" || max == 0 || !Numeric(s[0]) then 0 else 1 + NumericRun(s[1..], max - 1)
  }

  function DigitRun(s: string): (n: nat)
    ensures n <= |s|
  {
    if s == "" || !Digit(s[0]) then 0 else 1 + DigitRun(s[1..])
  }

  function DigitValue(c: char): nat {
    if Digit(c) then c as nat - '0' as nat else 0
  }

  function NatValue(d: string): nat {
    if d == "" then 0 else 10 * NatValue(d[..|d| - 1]) + DigitValue(d[|d| - 1])
  }

  function SignLength(s: string): (n: nat)
    ensures n <= |s| && n <= 1
  {
    if s != "" && (s[0] == '-' || s[0] == '+') then 1 else 0
  }

  function Signed(s: string, n: nat): int {
    if s != "" && s[0] == '-' then 0 - n else n
  }

  /** The exponent part, if it is complete: its value and length. */
  function ExponentPart(s: string): (r: (int, nat))
    ensures r.1 <= |s|
  {
    if s == "" || (s[0] != 'e' && s[0] != 'E') then (0, 0) else
      var sign := SignLength(s[1..]);
      var n := DigitRun(s[1 + sign..]);
      if n == 0 then (0, 0) else (Signed(s[1..], NatValue(s[1 + sign..1 + sign + n])), 1 + sign + n)
  }

  /** strtod on a text of numeric bytes: the number and how many bytes it takes, none if there is no digit. */
  function Strtod(s: string): (r: Option<(int, int, nat)>)
    ensures r.Some? ==> 0 < r.value.2 <= |s|
  {
    var sign := SignLength(s);
    var whole := DigitRun(s[sign..]);
    var a := sign + whole;
    var point := if a < |s| && s[a] == '.' then 1 else 0;
    var frac := if point == 1 then DigitRun(s[a + 1..]) else 0;
    if whole + frac == 0 then None else
      var b := a + point + frac;
      var (e, n) := ExponentPart(s[b..]);
      var digits := s[sign..a] + (if point == 1 then s[a + 1..b] else "");
      Some((Signed(s, NatValue(digits)), e - frac, b + n))
  }

  function ParseNumber(s: string): (r: Result<Json>)
    requires Terminated(s)
    ensures r.Ok? ==> Terminated(r.rest) && |r.rest| < |s|
  {
    var run := NumericRun(s, 63);
    match Strtod(s[..run])
    case None => Fail
    case Some((m, e, n)) => Ok(Number(m, e), s[n..])
  }

  // ---------- Values, arrays and objects ----------

  /** parse_value with the number of arrays and objects already open. */
  function ParseValue(s: string, depth: nat): (r: Result<Json>)
    requires Terminated(s)
    ensures r.Ok? ==> Terminated(r.rest) && |r.rest| < |s|
    decreases |s|, 0
  {
    if "null" <= s then
      Behind(s, 4);
      Ok(Null, s[4..])
    else if "false" <= s then
      Behind(s, 5);
      Ok(False, s[5..])
    else if "true" <= s then
      Behind(s, 4);
      Ok(True, s[4..])
    else if s[0] == '\"' then
      match ParseString(s)
      case Fail => Fail
      case Ok(str, rest) => Ok(String(str), rest)
    else if s[0] == '-' || Digit(s[0]) then ParseNumber(s)
    else if s[0] == '[' then
      if depth >= NESTING_LIMIT then Fail else
        Behind(s, 1);
        var t := SkipWs(s[1..]);
        if t[0] == ']' then
          Behind(t, 1);
          Ok(Array([]), t[1..])
        else
          match ParseItems(t, depth + 1)
          case Fail => Fail
          case Ok(items, rest) => Ok(Array(items), rest)
    else if s[0] == '{' then
      if depth >= NESTING_LIMIT then Fail else
        Behind(s, 1);
        var t := SkipWs(s[1..]);
        if t[0] == '}' then
          Behind(t, 1);
          Ok(Object([]), t[1..])
        else
          match ParseMembers(t, depth + 1)
          case Fail => Fail
          case Ok(members, rest) => Ok(Object(members), rest)
    else Fail
  }

  /** The loop of parse_array, from the first byte after the bracket or a comma to the closing bracket. */
  function ParseItems(s: string, depth: nat): (r: Result<seq<Json>>)
    requires Terminated(s)
    ensures r.Ok? ==> Terminated(r.rest) && |r.rest| < |s|
    decreases |s|, 1
  {
    match ParseValue(SkipWs(s), depth)
    case Fail => Fail
    case Ok(item, rest) =>
      var t := SkipWs(rest);
      if t[0] == ',' then
        match ParseItems(t[1..], depth)
        case Fail => Fail
        case Ok(items, rest) => Ok([item] + items, rest)
      else if t[0] == ']' then Ok([item], t[1..])
      else Fail
  }

  function ParseMembers(s: string, depth: nat): (r: Result<seq<Member>>)
    requires Terminated(s)
    ensures r.Ok? ==> Terminated(r.rest) && |r.rest| < |s|
    decreases |s|, 1
  {
    match ParseString(SkipWs(s))
    case Fail => Fail
    case Ok(key, rest) =>
      var t := SkipWs(rest);
      if t[0] != ':' then Fail else
        match ParseValue(SkipWs(t[1..]), depth)
        case Fail => Fail
        case Ok(value, rest) =>
          var u := SkipWs(rest);
          if u[0] == ',' then
            match ParseMembers(u[1..], depth)
            case Fail => Fail
            case Ok(members, rest) => Ok([Member(key, value)] + members, rest)
          else if u[0] == '}' then Ok([Member(key, value)], u[1..])
          else Fail
  }

  /** cJSON_ParseWithOpts on a C string; the rest is where the parse ended. */
  function Parse(text: string, requireEnd: bool): Result<Json>
    requires CString(text)
  {
    match ParseValue(SkipWs(text + [NUL]), 0)
    case Fail => Fail
    case Ok(v, rest) =>
      if !requireEnd then Ok(v, rest)
      else
        var t := SkipWs(rest);
        if t[0] == NUL then Ok(v, t) else Fail
  }
}
