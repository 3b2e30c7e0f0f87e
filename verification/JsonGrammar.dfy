/** The texts that the parser takes, written down apart from it: those of RFC 8259 and the code's liberties with them. */
module JsonGrammar {
  import opened Options
  import opened JsonSpec

  // ---------- Derivations ----------

  /** A byte of a string as it stands, a backslash with a letter, or the escapes of a scalar value. */
  datatype Char = Plain(byte: char) | Simple(letter: char) | Unicode(text: string, cp: nat)

  datatype Exponent = Exponent(mark: char, sign: string, digits: string)

  /** The tail of a string is what follows from an escape on whose four bytes are no digits. */
  datatype Value =
    | NullText
    | FalseText
    | TrueText
    | NumberText(minus: bool, whole: string, frac: Option<string>, exp: Option<Exponent>)
    | StringText(chars: seq<Char>, tail: string)
    | ArrayText(space: string, items: seq<Item>)
    | ObjectText(space: string, members: seq<Entry>)

  /** A value and the whitespace around it. */
  datatype Item = Item(before: string, value: Value, after: string)

  datatype Entry = Entry(before: string, key: seq<Char>, tail: string, colon: string, item: Item)

  // ---------- Tables of RFC 8259 ----------

  /** Section 7: the letters behind a backslash and what they stand for. */
  function Letter(l: char): Option<char> {
    match l
    case '\"' => Some('\"')
    case '\\' => Some('\\')
    case '/' => Some('/')
    case 'b' => Some('\U{0008}')
    case 'f' => Some('\U{000C}')
    case 'n' => Some('\U{000A}')
    case 'r' => Some('\U{000D}')
    case 't' => Some('\U{0009}')
    case _ => None
  }

  function HexOf(c: char): Option<nat> {
    match c
    case '0' => Some(0)
    case '1' => Some(1)
    case '2' => Some(2)
    case '3' => Some(3)
    case '4' => Some(4)
    case '5' => Some(5)
    case '6' => Some(6)
    case '7' => Some(7)
    case '8' => Some(8)
    case '9' => Some(9)
    case 'a' => Some(10)
    case 'b' => Some(11)
    case 'c' => Some(12)
    case 'd' => Some(13)
    case 'e' => Some(14)
    case 'f' => Some(15)
    case 'A' => Some(10)
    case 'B' => Some(11)
    case 'C' => Some(12)
    case 'D' => Some(13)
    case 'E' => Some(14)
    case 'F' => Some(15)
    case _ => None
  }

  function DecimalOf(c: char): Option<nat> {
    match c
    case '0' => Some(0)
    case '1' => Some(1)
    case '2' => Some(2)
    case '3' => Some(3)
    case '4' => Some(4)
    case '5' => Some(5)
    case '6' => Some(6)
    case '7' => Some(7)
    case '8' => Some(8)
    case '9' => Some(9)
    case _ => None
  }

  /** The four bytes behind backslash and u are digits. */
  predicate FourDigits(e: string)
    requires |e| >= 6
  {
    HexOf(e[2]).Some? && HexOf(e[3]).Some? && HexOf(e[4]).Some? && HexOf(e[5]).Some?
  }

  /** Backslash, u and four hexadecimal digits for h. */
  predicate EscapeOf(e: string, h: nat) {
    && |e| == 6 && e[0] == '\\' && e[1] == 'u' && FourDigits(e)
    && h == 4096 * HexOf(e[2]).value + 256 * HexOf(e[3]).value + 16 * HexOf(e[4]).value + HexOf(e[5]).value
  }

  /** One escape for a scalar value below 0x10000, the two surrogates from there on. */
  predicate UnicodeOf(e: string, cp: nat) {
    if cp < 0x10000 then !(0xD800 <= cp < 0xE000) && EscapeOf(e, cp)
    else
      cp <= 0x10FFFF && |e| == 12
      && EscapeOf(e[..6], 0xD800 + (cp - 0x10000) / 0x400) && EscapeOf(e[6..], 0xDC00 + (cp - 0x10000) % 0x400)
  }

  predicate DecimalDigits(d: string) {
    forall i | 0 <= i < |d| :: DecimalOf(d[i]).Some?
  }

  // ---------- What the parser takes ----------

  /** Whitespace is every byte from 1 to 32. */
  predicate Spaces(w: string) {
    forall i | 0 <= i < |w| :: 1 <= w[i] as int <= 32
  }

  /** Control bytes may stand in a string as they are. */
  predicate CharOk(c: Char) {
    match c
    case Plain(b) => b as int != 0 && b != '\"' && b != '\\'
    case Simple(l) => Letter(l).Some?
    case Unicode(e, cp) => UnicodeOf(e, cp)
  }

  predicate CharsOk(cs: seq<Char>) {
    forall i | 0 <= i < |cs| :: CharOk(cs[i])
  }

  /** Every quote has a backslash in front of it that hides it. */
  predicate Hides(t: string) {
    if t == "" then true
    else if t[0] == '\\' then |t| >= 2 && Hides(t[2..])
    else t[0] != '\"' && Hides(t[1..])
  }

  /** From a malformed escape on the string only has to be closed, and the second pass has to get through. */
  predicate TailOk(t: string) {
    t == ""
    || (|t| >= 6 && t[0] == '\\' && t[1] == 'u' && !FourDigits(t) && CString(t) && Hides(t) && Decode(t[6..] + "\"").Some?)
  }

  predicate ExponentOk(e: Exponent) {
    && (e.mark == 'e' || e.mark == 'E') && (e.sign == "" || e.sign == "+" || e.sign == "-")
    && e.digits != "" && DecimalDigits(e.digits)
  }

  /** What strtod takes, if it starts with a minus or a digit: leading zeros, and a point without digits on one side. */
  predicate NumberOk(v: Value)
    requires v.NumberText?
  {
    && DecimalDigits(v.whole) && (v.frac.Some? ==> DecimalDigits(v.frac.value)) && (v.exp.Some? ==> ExponentOk(v.exp.value))
    && (v.whole == "" ==> v.minus && v.frac.Some? && v.frac.value != "")
  }

  predicate Accepted(v: Value)
    decreases v, 0
  {
    match v
    case NullText => true
    case FalseText => true
    case TrueText => true
    case NumberText(_, _, _, _) => NumberOk(v)
    case StringText(cs, tail) => CharsOk(cs) && TailOk(tail)
    case ArrayText(w, items) => Spaces(w) && forall i | 0 <= i < |items| :: ItemOk(items[i])
    case ObjectText(w, members) => Spaces(w) && forall i | 0 <= i < |members| :: EntryOk(members[i])
  }

  predicate ItemOk(i: Item)
    decreases i, 1
  {
    Spaces(i.before) && Accepted(i.value) && Spaces(i.after)
  }

  predicate EntryOk(e: Entry)
    decreases e, 2
  {
    Spaces(e.before) && CharsOk(e.key) && TailOk(e.tail) && Spaces(e.colon) && ItemOk(e.item)
  }

  // ---------- What of it is RFC 8259 ----------

  predicate RfcSpaces(w: string) {
    forall i | 0 <= i < |w| :: w[i] == ' ' || w[i] == '\t' || w[i] == '\n' || w[i] == '\r'
  }

  /** No control bytes, and no escapes without digits. */
  predicate RfcString(cs: seq<Char>, tail: string) {
    tail == "" && forall i | 0 <= i < |cs| :: CharOk(cs[i]) && (cs[i].Plain? ==> cs[i].byte as int >= 0x20)
  }

  /** No leading zero, and digits on both sides of a point. */
  predicate RfcNumber(v: Value)
    requires v.NumberText?
  {
    NumberOk(v) && v.whole != "" && (v.whole[0] == '0' ==> |v.whole| == 1) && (v.frac.Some? ==> v.frac.value != "")
  }

  predicate Rfc(v: Value)
    decreases v, 0
  {
    match v
    case NullText => true
    case FalseText => true
    case TrueText => true
    case NumberText(_, _, _, _) => RfcNumber(v)
    case StringText(cs, tail) => RfcString(cs, tail)
    case ArrayText(w, items) => RfcSpaces(w) && forall i | 0 <= i < |items| :: RfcItem(items[i])
    case ObjectText(w, members) => RfcSpaces(w) && forall i | 0 <= i < |members| :: RfcEntry(members[i])
  }

  predicate RfcItem(i: Item)
    decreases i, 1
  {
    RfcSpaces(i.before) && Rfc(i.value) && RfcSpaces(i.after)
  }

  predicate RfcEntry(e: Entry)
    decreases e, 2
  {
    RfcSpaces(e.before) && RfcString(e.key, e.tail) && RfcSpaces(e.colon) && RfcItem(e.item)
  }

  lemma {:induction false} RfcIsAccepted(v: Value)
    requires Rfc(v)
    ensures Accepted(v)
    decreases v, 0
  {
    match v
    case ArrayText(w, items) =>
      forall i | 0 <= i < |items|
        ensures ItemOk(items[i])
      {
        RfcItemIsOk(items[i]);
      }
    case ObjectText(w, members) =>
      forall i | 0 <= i < |members|
        ensures EntryOk(members[i])
      {
        RfcEntryIsOk(members[i]);
      }
    case _ =>
  }

  lemma {:induction false} RfcItemIsOk(i: Item)
    requires RfcItem(i)
    ensures ItemOk(i)
    decreases i, 1
  {
    RfcIsAccepted(i.value);
  }

  lemma {:induction false} RfcEntryIsOk(e: Entry)
    requires RfcEntry(e)
    ensures EntryOk(e)
    decreases e, 2
  {
    RfcItemIsOk(e.item);
  }

  // ---------- Their texts ----------

  function CharText(c: Char): string {
    match c
    case Plain(b) => [b]
    case Simple(l) => ['\\', l]
    case Unicode(e, _) => e
  }

  function Chars(cs: seq<Char>): string {
    if cs == [] then "" else CharText(cs[0]) + Chars(cs[1..])
  }

  function Quoted(cs: seq<Char>, tail: string): string {
    "\"" + (Chars(cs) + tail) + "\""
  }

  function Fraction(frac: Option<string>): string {
    match frac
    case None => ""
    case Some(d) => "." + d
  }

  function ExponentText(e: Option<Exponent>): string {
    match e
    case None => ""
    case Some(x) => [x.mark] + x.sign + x.digits
  }

  function Numeral(v: Value): string
    requires v.NumberText?
  {
    (if v.minus then "-" else "") + v.whole + Fraction(v.frac) + ExponentText(v.exp)
  }

  function Text(v: Value): string
    decreases v, 0
  {
    match v
    case NullText => "null"
    case FalseText => "false"
    case TrueText => "true"
    case NumberText(_, _, _, _) => Numeral(v)
    case StringText(cs, tail) => Quoted(cs, tail)
    case ArrayText(w, items) => "[" + (if items == [] then w else ItemsText(items)) + "]"
    case ObjectText(w, members) => "{" + (if members == [] then w else EntriesText(members)) + "}"
  }

  function ItemText(i: Item): string
    decreases i, 1
  {
    i.before + Text(i.value) + i.after
  }

  function ItemsText(items: seq<Item>): string
    decreases items, 2
  {
    if items == [] then "" else ItemText(items[0]) + (if |items| == 1 then "" else "," + ItemsText(items[1..]))
  }

  function EntryText(e: Entry): string
    decreases e, 2
  {
    e.before + Quoted(e.key, e.tail) + e.colon + ":" + ItemText(e.item)
  }

  function EntriesText(members: seq<Entry>): string
    decreases members, 3
  {
    if members == [] then "" else EntryText(members[0]) + (if |members| == 1 then "" else "," + EntriesText(members[1..]))
  }

  // ---------- Their values ----------

  function CharBytes(c: Char): string
    requires CharOk(c)
  {
    match c
    case Plain(b) => [b]
    case Simple(l) => [Letter(l).value]
    case Unicode(_, cp) => EncodeUtf8(cp)
  }

  function Bytes(cs: seq<Char>): string
    requires CharsOk(cs)
  {
    if cs == [] then "" else CharBytes(cs[0]) + Bytes(cs[1..])
  }

  /** What the caller sees of it: a C string ends at the first NUL, which a malformed escape also stands for. */
  function Seen(cs: seq<Char>): string
    requires CharsOk(cs)
  {
    CStr(Bytes(cs))
  }

  function Tens(k: nat): nat {
    if k == 0 then 1 else 10 * Tens(k - 1)
  }

  /** The number that decimal digits write. */
  function Decimal(d: string): nat
    requires DecimalDigits(d)
  {
    if d == "" then 0 else Tens(|d| - 1) * DecimalOf(d[0]).value + Decimal(d[1..])
  }

  function ExponentValue(e: Option<Exponent>): int
    requires e.Some? ==> ExponentOk(e.value)
  {
    match e
    case None => 0
    case Some(x) => if x.sign == "-" then 0 - Decimal(x.digits) else Decimal(x.digits)
  }

  function FractionDigits(frac: Option<string>): string {
    match frac
    case None => ""
    case Some(d) => d
  }

  function NumberValue(v: Value): Json
    requires v.NumberText? && NumberOk(v)
  {
    var f := FractionDigits(v.frac);
    assert DecimalDigits(v.whole + f);
    var n := Decimal(v.whole + f);
    Json.Number(if v.minus then 0 - n else n, ExponentValue(v.exp) - |f|)
  }

  function ValueOf(v: Value): Json
    requires Accepted(v)
    decreases v, 0
  {
    match v
    case NullText => Null
    case FalseText => False
    case TrueText => True
    case NumberText(_, _, _, _) => NumberValue(v)
    case StringText(cs, _) => String(Seen(cs))
    case ArrayText(_, items) => Array(ItemValues(items))
    case ObjectText(_, members) => Object(EntryValues(members))
  }

  function ItemValues(items: seq<Item>): (vs: seq<Json>)
    requires forall i | 0 <= i < |items| :: ItemOk(items[i])
    ensures |vs| == |items|
    decreases items, 1
  {
    if items == [] then []
    else
      assert ItemOk(items[0]);
      [ValueOf(items[0].value)] + ItemValues(items[1..])
  }

  function EntryValues(members: seq<Entry>): (ms: seq<Member>)
    requires forall i | 0 <= i < |members| :: EntryOk(members[i])
    ensures |ms| == |members|
    decreases members, 1
  {
    if members == [] then []
    else
      assert EntryOk(members[0]) && ItemOk(members[0].item);
      [Member(Seen(members[0].key), ValueOf(members[0].item.value))] + EntryValues(members[1..])
  }

  // ---------- Their size ----------

  /** The parser copies a number to a buffer of 63 bytes and a NUL. */
  predicate Short(v: Value)
    decreases v, 0
  {
    match v
    case NumberText(_, _, _, _) => |Numeral(v)| <= 63
    case ArrayText(_, items) => forall i | 0 <= i < |items| :: Short(items[i].value)
    case ObjectText(_, members) => forall i | 0 <= i < |members| :: Short(members[i].item.value)
    case _ => true
  }

  /** How deeply arrays and objects are nested. */
  function Depth(v: Value): nat
    decreases v, 0
  {
    match v
    case ArrayText(_, items) => 1 + ItemsDepth(items)
    case ObjectText(_, members) => 1 + EntriesDepth(members)
    case _ => 0
  }

  function Deeper(a: nat, b: nat): nat {
    if a < b then b else a
  }

  function ItemsDepth(items: seq<Item>): nat
    decreases items, 1
  {
    if items == [] then 0 else Deeper(Depth(items[0].value), ItemsDepth(items[1..]))
  }

  function EntriesDepth(members: seq<Entry>): nat
    decreases members, 1
  {
    if members == [] then 0 else Deeper(Depth(members[0].item.value), EntriesDepth(members[1..]))
  }

  /** Whether the parser, with depth arrays and objects open, reads the text. */
  predicate Readable(v: Value, depth: nat) {
    Short(v) && depth + Depth(v) <= 1000
  }
}
