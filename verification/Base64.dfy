/** Base64: the encoder's groups, the decoder's accumulator, and that one undoes the other. */
module Base64 {
  import opened ByteXor

  type Byte = b: int | 0 <= b < 256 witness 0

  const NUL: char := '\U{0000}'
  const SKIP: nat := 253
  const PAD: nat := 254
  const INVALID: nat := 255

  /** The table codes. */
  function Code(i: int): char
    requires 0 <= i < 64
  {
    if i < 26 then 'A' + i as char
    else if i < 52 then 'a' + (i - 26) as char
    else if i < 62 then '0' + (i - 52) as char
    else if i == 62 then '+'
    else '/'
  }

  /** The table map. */
  function Map(c: char): (r: nat)
    ensures r < 64 || r == SKIP || r == PAD || r == INVALID
  {
    if c == '\n' || c == '\r' || c == ' ' then SKIP
    else if c == '=' then PAD
    else if c == '+' then 62
    else if c == '/' then 63
    else if '0' <= c <= '9' then 52 + (c as nat - '0' as nat)
    else if 'A' <= c <= 'Z' then c as nat - 'A' as nat
    else if 'a' <= c <= 'z' then 26 + (c as nat - 'a' as nat)
    else INVALID
  }

  /** The tables are inverse. */
  lemma CodeMap(i: int)
    requires 0 <= i < 64
    ensures Map(Code(i)) == i && Code(i) != NUL
  {
  }

  // ---------- Encoding: section 4 of RFC 4648 ----------

  /** The digit of weight 64^k of a 24-bit group. */
  function Digit(n: nat, k: nat): (d: int)
    requires k < 4
    ensures 0 <= d < 64
  {
    match k
    case 0 => n % 64
    case 1 => n / 64 % 64
    case 2 => n / 4096 % 64
    case _ => n / 262144 % 64
  }

  /** Three bytes as one 24-bit group, the first byte leading. */
  function Group(a: Byte, b: Byte, c: Byte): nat {
    a * 65536 + b * 256 + c
  }

  function FourDigits(n: nat): (w: string)
    ensures |w| == 4
  {
    [Code(Digit(n, 3)), Code(Digit(n, 2)), Code(Digit(n, 1)), Code(Digit(n, 0))]
  }

  function Encode(s: seq<Byte>): string {
    if s == [] then ""
    else if |s| == 1 then FourDigits(Group(s[0], 0, 0))[..2] + "=="
    else if |s| == 2 then FourDigits(Group(s[0], s[1], 0))[..3] + "="
    else FourDigits(Group(s[0], s[1], s[2])) + Encode(s[3..])
  }

  /** Four characters for every three bytes begun. */
  lemma {:induction false} EncodeLength(s: seq<Byte>)
    ensures |Encode(s)| == 4 * ((|s| + 2) / 3)
  {
    hide FourDigits;
    if |s| >= 3 {
      var rest := s[3..];
      EncodeLength(rest);
      assert (|s| + 2) / 3 == (|rest| + 2) / 3 + 1;
    }
  }

  // ---------- Decoding ----------

  /** The bytes written, and whether the end was reached without an invalid character. */
  datatype Decoded = Decoded(bytes: seq<Byte>, ok: bool)

  function Behind(done: seq<Byte>, d: Decoded): Decoded {
    Decoded(done + d.bytes, d.ok)
  }

  /** The bytes of a full group of which g are wanted, but never less than one. */
  function GroupBytes(t: nat, g: int): (b: seq<Byte>)
    ensures 1 <= |b| <= 3
  {
    [t / 65536 % 256] + (if g > 1 then [t / 256 % 256] else []) + (if g > 2 then [t % 256] else [])
  }

  /** The decoder on what is left of the text: t holds y digits, and g is 3 less the pads so far. */
  function DecodeFrom(s: string, t: nat, y: nat, g: int): Decoded
    requires y < 4
  {
    if s == "" then Decoded([], true)
    else
      var c := Map(s[0]);
      if c == INVALID then Decoded([], false)
      else if c == SKIP then DecodeFrom(s[1..], t, y, g)
      else
        var g' := if c == PAD then g - 1 else g;
        var t' := t * 64 + if c == PAD then 0 else c;
        if y == 3 then Behind(GroupBytes(t', g'), DecodeFrom(s[1..], 0, 0, g'))
        else DecodeFrom(s[1..], t', y + 1, g')
  }

  function Decode(s: string): Decoded {
    DecodeFrom(s, 0, 0, 3)
  }

  /** A text without spaces and line breaks. */
  function Squeeze(s: string): string {
    if s == "" then "" else (if s[0] == ' ' || s[0] == '\n' || s[0] == '\r' then "" else [s[0]]) + Squeeze(s[1..])
  }

  /** The table map, entry by entry: what is skipped, the pad, the 64 characters of RFC 4648, and all others. */
  lemma MapTable(c: char)
    ensures Map(c) == SKIP <==> c == ' ' || c == '\n' || c == '\r'
    ensures Map(c) == PAD <==> c == '='
    ensures Map(c) == INVALID <==>
            !('A' <= c <= 'Z' || 'a' <= c <= 'z' || '0' <= c <= '9' || c in {'+', '/', '=', ' ', '\n', '\r'})
    ensures 'A' <= c <= 'Z' ==> Map(c) == c as int - 65
    ensures 'a' <= c <= 'z' ==> Map(c) == c as int - 71
    ensures '0' <= c <= '9' ==> Map(c) == c as int + 4
    ensures Map('+') == 62 && Map('/') == 63
  {
  }

  /** The table codes: A to Z, a to z, 0 to 9, plus and slash. */
  lemma CodeTable(i: int)
    requires 0 <= i < 64
    ensures i < 26 ==> Code(i) as int == 65 + i
    ensures 26 <= i < 52 ==> Code(i) as int == 71 + i
    ensures 52 <= i < 62 ==> Code(i) as int == i - 4
    ensures i == 62 ==> Code(i) == '+'
    ensures i == 63 ==> Code(i) == '/'
  {
  }

  lemma Vector(a: Byte, b: Byte, c: Byte, w: string)
    requires |w| == 4
    requires var n := a * 65536 + b * 256 + c;
             && w[0] == Code(n / 262144) && w[1] == Code(n / 4096 % 64) && w[2] == Code(n / 64 % 64) && w[3] == Code(n % 64)
    ensures FourDigits(Group(a, b, c)) == w
  {
    var n := Group(a, b, c);
    assert n < 16777216 && n / 262144 % 64 == n / 262144;
    hide Code;
  }

  /** The test vectors of section 10 of RFC 4648. */
  lemma TestVectors()
    ensures Encode([]) == "" && Encode([0x66]) == "Zg==" && Encode([0x66, 0x6f]) == "Zm8=" && Encode([0x66, 0x6f, 0x6f]) == "Zm9v"
    ensures Encode([0x66, 0x6f, 0x6f, 0x62]) == "Zm9vYg==" && Encode([0x66, 0x6f, 0x6f, 0x62, 0x61]) == "Zm9vYmE="
    ensures Encode([0x66, 0x6f, 0x6f, 0x62, 0x61, 0x72]) == "Zm9vYmFy"
  {
    EncodeNone();
    FirstVectors();
    LastVectors();
    Threes([0x66, 0x6f, 0x6f], [0x62], "Zm9v", "Yg==");
    Threes([0x66, 0x6f, 0x6f], [0x62, 0x61], "Zm9v", "YmE=");
    Threes([0x66, 0x6f, 0x6f], [0x62, 0x61, 0x72], "Zm9v", "YmFy");
    hide Encode;
    assert [0x66 as Byte, 0x6f, 0x6f] + [0x62] == [0x66, 0x6f, 0x6f, 0x62];
    assert [0x66 as Byte, 0x6f, 0x6f] + [0x62, 0x61] == [0x66, 0x6f, 0x6f, 0x62, 0x61];
    assert [0x66 as Byte, 0x6f, 0x6f] + [0x62, 0x61, 0x72] == [0x66, 0x6f, 0x6f, 0x62, 0x61, 0x72];
    assert "Zm9v" + "Yg==" == "Zm9vYg==" && "Zm9v" + "YmE=" == "Zm9vYmE=" && "Zm9v" + "YmFy" == "Zm9vYmFy";
  }

  lemma Threes(s: seq<Byte>, t: seq<Byte>, v: string, w: string)
    requires |s| == 3 && Encode(s) == v && Encode(t) == w
    ensures Encode(s + t) == v + w
  {
    hide FourDigits;
    assert s[3..] == [] && (s + t)[3..] == t;
    EncodeNone();
    assert FourDigits(Group(s[0], s[1], s[2])) + "" == FourDigits(Group(s[0], s[1], s[2]));
    if t == [] {
      assert s + t == s && v + w == v;
    }
  }

  lemma EncodeNone()
    ensures Encode([]) == ""
  {
  }

  lemma ThreeBytes(a: Byte, b: Byte, c: Byte)
    ensures Encode([a, b, c]) == FourDigits(Group(a, b, c))
    ensures Encode([a, b]) == FourDigits(Group(a, b, 0))[..3] + "=" && Encode([a]) == FourDigits(Group(a, 0, 0))[..2] + "=="
  {
    hide FourDigits;
    assert [a, b, c][3..] == [];
    EncodeNone();
    assert FourDigits(Group(a, b, c)) + "" == FourDigits(Group(a, b, c));
  }

  lemma FirstVectors()
    ensures Encode([0x66]) == "Zg==" && Encode([0x66, 0x6f]) == "Zm8=" && Encode([0x66, 0x6f, 0x6f]) == "Zm9v"
  {
    Vector(0x66, 0, 0, "ZgAA");
    Vector(0x66, 0x6f, 0, "Zm8A");
    Vector(0x66, 0x6f, 0x6f, "Zm9v");
    hide FourDigits, Group, Encode;
    ThreeBytes(0x66, 0x6f, 0x6f);
    assert "ZgAA"[..2] + "==" == "Zg==" && "Zm8A"[..3] + "=" == "Zm8=";
  }

  lemma LastVectors()
    ensures Encode([0x62]) == "Yg==" && Encode([0x62, 0x61]) == "YmE=" && Encode([0x62, 0x61, 0x72]) == "YmFy"
  {
    Vector(0x62, 0, 0, "YgAA");
    Vector(0x62, 0x61, 0, "YmEA");
    Vector(0x62, 0x61, 0x72, "YmFy");
    hide FourDigits, Group, Encode;
    ThreeBytes(0x62, 0x61, 0x72);
    assert "YgAA"[..2] + "==" == "Yg==" && "YmEA"[..3] + "=" == "YmE=";
  }

  /** A text decodes without complaint exactly if every byte is one of the 64, a pad, a space or a line break. */
  lemma {:induction false} DecodesExactly(s: string, t: nat, y: nat, g: int)
    requires y < 4
    ensures DecodeFrom(s, t, y, g).ok <==>
            forall i | 0 <= i < |s| ::
              'A' <= s[i] <= 'Z' || 'a' <= s[i] <= 'z' || '0' <= s[i] <= '9' || s[i] in {'+', '/', '=', ' ', '\n', '\r'}
    decreases |s|
  {
    hide Map, GroupBytes;
    if s != "" {
      MapTable(s[0]);
      assert forall i | 1 <= i < |s| :: s[i] == s[1..][i - 1];
      var c := Map(s[0]);
      var g' := if c == PAD then g - 1 else g;
      var t' := t * 64 + if c == PAD then 0 else c;
      if c == SKIP {
        DecodesExactly(s[1..], t, y, g);
      } else if c != INVALID {
        DecodesExactly(s[1..], if y == 3 then 0 else t', if y == 3 then 0 else y + 1, g');
      }
    }
  }

  /** Spaces and line breaks anywhere make no difference. */
  lemma {:induction false} DecodeSqueezed(s: string, t: nat, y: nat, g: int)
    requires y < 4
    ensures DecodeFrom(s, t, y, g) == DecodeFrom(Squeeze(s), t, y, g)
  {
    if s != "" {
      var c := Map(s[0]);
      if c == SKIP {
        DecodeSqueezed(s[1..], t, y, g);
        assert Squeeze(s) == Squeeze(s[1..]);
      } else {
        assert Squeeze(s)[0] == s[0] && Squeeze(s)[1..] == Squeeze(s[1..]);
        var g' := if c == PAD then g - 1 else g;
        var t' := t * 64 + if c == PAD then 0 else c;
        if c != INVALID {
          DecodeSqueezed(s[1..], if y == 3 then 0 else t', if y == 3 then 0 else y + 1, g');
        }
      }
    }
  }

  // ---------- The round trip ----------

  lemma Digits(n: nat)
    requires n < 16777216
    ensures ((Digit(n, 3) * 64 + Digit(n, 2)) * 64 + Digit(n, 1)) * 64 + Digit(n, 0) == n
  {
    assert n / 4096 == n / 64 / 64 && n / 262144 == n / 64 / 64 / 64;
  }

  lemma GroupParts(a: Byte, b: Byte, c: Byte)
    ensures var n := Group(a, b, c);
            n < 16777216 && n / 65536 % 256 == a && n / 256 % 256 == b && n % 256 == c
  {
    var n := Group(a, b, c);
    assert n / 256 == a * 256 + b;
    assert n / 65536 == a;
  }

  /** Without an eighth or sixteenth bit in use, the last digits are zero: what the pads stand for. */
  lemma PadDigits(a: Byte, b: Byte)
    ensures Digit(Group(a, b, 0), 0) == 0
    ensures b == 0 ==> Digit(Group(a, b, 0), 1) == 0
  {
    assert Group(a, b, 0) == 64 * (a * 1024 + b * 4);
  }

  lemma DecodeStep(c: char, rest: string, t: nat, y: nat, g: int)
    requires y < 4 && Map(c) != INVALID && Map(c) != SKIP
    ensures var g' := if Map(c) == PAD then g - 1 else g;
            var t' := t * 64 + if Map(c) == PAD then 0 else Map(c);
            DecodeFrom([c] + rest, t, y, g)
            == if y == 3 then Behind(GroupBytes(t', g'), DecodeFrom(rest, 0, 0, g')) else DecodeFrom(rest, t', y + 1, g')
  {
    assert ([c] + rest)[1..] == rest;
  }

  /** Four characters that are digits or pads give the bytes of their group. */
  lemma DecodeFour(w: string, rest: string, g: int, n: nat)
    requires |w| == 4 && forall i | 0 <= i < 4 :: Map(w[i]) < 64 || Map(w[i]) == PAD
    requires n == ((Value(w[0]) * 64 + Value(w[1])) * 64 + Value(w[2])) * 64 + Value(w[3])
    ensures var g' := g - Pads(w[0]) - Pads(w[1]) - Pads(w[2]) - Pads(w[3]);
            DecodeFrom(w + rest, 0, 0, g) == Behind(GroupBytes(n, g'), DecodeFrom(rest, 0, 0, g'))
  {
    hide DecodeFrom, Map, GroupBytes;
    var g1 := g - Pads(w[0]);
    var g2 := g1 - Pads(w[1]);
    var g3 := g2 - Pads(w[2]);
    var r3 := [w[3]] + rest;
    var r2 := [w[2]] + r3;
    var r1 := [w[1]] + r2;
    assert w + rest == [w[0]] + r1;
    DecodeStep(w[0], r1, 0, 0, g);
    DecodeStep(w[1], r2, Value(w[0]), 1, g1);
    DecodeStep(w[2], r3, Value(w[0]) * 64 + Value(w[1]), 2, g2);
    DecodeStep(w[3], rest, (Value(w[0]) * 64 + Value(w[1])) * 64 + Value(w[2]), 3, g3);
  }

  function Value(c: char): nat {
    if Map(c) == PAD then 0 else Map(c)
  }

  function Pads(c: char): nat {
    if Map(c) == PAD then 1 else 0
  }

  /** Any four characters of the alphabet and pads, canonical or not: a group of 24 bits, of which as many bytes are
      written as there are no pads so far, but at least one; what follows is decoded with that count of pads. */
  lemma DecodedGroup(w: string, rest: string, pads: nat)
    requires |w| == 4 && forall i | 0 <= i < 4 :: Map(w[i]) < 64 || w[i] == '='
    ensures var n := 262144 * Value(w[0]) + 4096 * Value(w[1]) + 64 * Value(w[2]) + Value(w[3]);
            var p := pads + Pads(w[0]) + Pads(w[1]) + Pads(w[2]) + Pads(w[3]);
            && n < 16777216
            && DecodeFrom(w + rest, 0, 0, 3 - pads) ==
               Behind([n / 65536] + (if p < 2 then [n / 256 % 256] else []) + (if p < 1 then [n % 256] else []), DecodeFrom(rest, 0, 0, 3 - p))
  {
    PadValue();
    ValuesAre(w[0]);
    ValuesAre(w[1]);
    ValuesAre(w[2]);
    ValuesAre(w[3]);
    hide DecodeFrom, Map, Value, Pads;
    var n := 262144 * Value(w[0]) + 4096 * Value(w[1]) + 64 * Value(w[2]) + Value(w[3]);
    DecodeFour(w, rest, 3 - pads, n);
    assert n / 65536 < 256;
  }

  /** What a character counts for: its place in the alphabet, or nothing and one pad. */
  lemma ValuesAre(c: char)
    ensures Map(c) < 64 ==> Value(c) == Map(c) && Pads(c) == 0
    ensures c == '=' ==> Value(c) == 0 && Pads(c) == 1
  {
  }

  lemma CodeValue(i: int)
    requires 0 <= i < 64
    ensures Value(Code(i)) == i && Pads(Code(i)) == 0 && Map(Code(i)) == i
  {
  }

  /** The bytes of the first group, filled up with zeros. */
  function First(s: seq<Byte>): nat
    requires s != []
  {
    Group(s[0], if |s| > 1 then s[1] else 0, if |s| > 2 then s[2] else 0)
  }

  /** The first four characters of an encoding. */
  lemma FirstFour(s: seq<Byte>) returns (w: string, rest: seq<Byte>)
    requires s != []
    ensures Encode(s) == w + Encode(rest) && rest == if |s| > 3 then s[3..] else []
    ensures |w| == 4
    ensures w[0] == Code(Digit(First(s), 3)) && w[1] == Code(Digit(First(s), 2))
    ensures w[2] == if |s| > 1 then Code(Digit(First(s), 1)) else '='
    ensures w[3] == if |s| > 2 then Code(Digit(First(s), 0)) else '='
  {
    hide Code, Digit, Group;
    w := Encode(s)[..4];
    rest := if |s| > 3 then s[3..] else [];
  }

  lemma FirstFourValues(s: seq<Byte>) returns (w: string, rest: seq<Byte>)
    requires s != []
    ensures Encode(s) == w + Encode(rest) && rest == if |s| > 3 then s[3..] else []
    ensures |w| == 4 && forall i | 0 <= i < 4 :: Map(w[i]) < 64 || Map(w[i]) == PAD
    ensures First(s) == ((Value(w[0]) * 64 + Value(w[1])) * 64 + Value(w[2])) * 64 + Value(w[3])
    ensures Pads(w[0]) + Pads(w[1]) + Pads(w[2]) + Pads(w[3]) == if |s| > 2 then 0 else 3 - |s|
  {
    hide Code, Digit, Encode, Map;
    w, rest := FirstFour(s);
    var a, b, c := s[0], if |s| > 1 then s[1] else 0, if |s| > 2 then s[2] else 0;
    GroupParts(a, b, c);
    Digits(First(s));
    PadDigits(a, b);
    PadValue();
    CodeValue(Digit(First(s), 3));
    CodeValue(Digit(First(s), 2));
    CodeValue(Digit(First(s), 1));
    CodeValue(Digit(First(s), 0));
  }

  lemma FirstBytes(s: seq<Byte>)
    requires s != []
    ensures GroupBytes(First(s), if |s| > 2 then 3 else |s|) == if |s| > 2 then s[..3] else s
  {
    GroupParts(s[0], if |s| > 1 then s[1] else 0, if |s| > 2 then s[2] else 0);
  }

  /** The pad count behind an encoding: 3 less the pads of its last group. */
  function PadsLeft(n: nat): nat {
    if n % 3 == 0 then 3 else n % 3
  }

  /** In front of any text an encoding decodes to its bytes, and leaves its pad count to that text. */
  lemma {:induction false} DecodeEncodeThen(s: seq<Byte>, u: string)
    ensures Decode(Encode(s) + u) == Behind(s, DecodeFrom(u, 0, 0, PadsLeft(|s|)))
    decreases |s|
  {
    hide DecodeFrom, Encode, Map, First, GroupBytes, Value, Pads, Behind;
    if s == [] {
      EncodeNothing();
      assert "" + u == u;
      BehindNothing(DecodeFrom(u, 0, 0, 3));
    } else {
      var w, rest := FirstFourValues(s);
      assert Encode(s) + u == w + (Encode(rest) + u);
      DecodeFour(w, Encode(rest) + u, 3, First(s));
      FirstBytes(s);
      if |s| <= 2 {
        EncodeNothing();
        assert "" + u == u;
      } else {
        DecodeEncodeThen(rest, u);
        PadsLeftNext(|s|);
        assert s[..3] + rest == s;
        BehindTwice(s[..3], rest, DecodeFrom(u, 0, 0, PadsLeft(|s|)));
      }
    }
  }

  lemma PadsLeftNext(n: nat)
    requires n >= 3
    ensures PadsLeft(n) == PadsLeft(n - 3)
  {
  }

  lemma BehindNothing(d: Decoded)
    ensures Behind([], d) == d
  {
    assert [] + d.bytes == d.bytes;
  }

  lemma DecodeEncode(s: seq<Byte>)
    ensures Decode(Encode(s)) == Decoded(s, true)
  {
    hide DecodeFrom, Encode;
    DecodeEncodeThen(s, "");
    NothingLeft(PadsLeft(|s|));
    assert Encode(s) + "" == Encode(s) && s + [] == s;
  }

  /** With a pad count that is used up in part, a group comes out short. */
  lemma {:induction false} ShortBytes(t: seq<Byte>, g: int)
    requires g <= 2
    ensures var d := DecodeFrom(Encode(t), 0, 0, g);
            if |t| <= 1 then d == Decoded(t, true) else |d.bytes| < |t|
    decreases |t|
  {
    hide DecodeFrom, Encode, Map, First, Value, Pads;
    if t == [] {
      EncodeNothing();
      NothingLeft(g);
    } else {
      var w, rest := FirstFourValues(t);
      DecodeFour(w, Encode(rest), g, First(t));
      var g' := g - if |t| > 2 then 0 else 3 - |t|;
      ShortBytes(rest, g');
      if |t| == 1 {
        FirstBytes(t);
        assert GroupBytes(First(t), g') == GroupBytes(First(t), 1) == t;
        assert t + [] == t;
      }
    }
  }

  /** Two encodings in one text decode to both byte strings exactly if the first one has no pads, or the second
      one holds a byte at most. */
  lemma DecodeTwoEncodings(s: seq<Byte>, t: seq<Byte>)
    ensures Decode(Encode(s) + Encode(t)) == Decoded(s + t, true) <==> |s| % 3 == 0 || |t| <= 1
  {
    hide Encode, DecodeFrom;
    DecodeEncodeThen(s, Encode(t));
    var d := DecodeFrom(Encode(t), 0, 0, PadsLeft(|s|));
    if |s| % 3 == 0 {
      DecodeEncode(t);
    } else {
      ShortBytes(t, PadsLeft(|s|));
      if |t| > 1 {
        assert |s + d.bytes| < |s + t|;
      }
    }
  }

  /** Characters that cannot fill a group any more give no byte. */
  lemma {:induction false} Unfinished(w: string, t: nat, y: nat, g: int)
    requires y + |w| < 4
    ensures DecodeFrom(w, t, y, g) == Decoded([], forall i | 0 <= i < |w| :: Map(w[i]) != INVALID)
  {
    hide Map;
    if w != "" && Map(w[0]) != INVALID {
      var c := Map(w[0]);
      var rest := w[1..];
      if c == SKIP {
        Unfinished(rest, t, y, g);
      } else {
        Unfinished(rest, t * 64 + if c == PAD then 0 else c, y + 1, if c == PAD then g - 1 else g);
      }
      assert forall i | 0 <= i < |rest| :: rest[i] == w[i + 1];
      assert forall i | 1 <= i < |w| :: w[i] == rest[i - 1];
    }
  }

  /** Up to three characters behind an encoding are ignored, unless one is invalid. */
  lemma UnfinishedGroup(s: seq<Byte>, w: string)
    requires |w| < 4
    ensures Decode(Encode(s) + w) == Decoded(s, forall i | 0 <= i < |w| :: Map(w[i]) != INVALID)
  {
    hide Encode, DecodeFrom, Map;
    DecodeEncodeThen(s, w);
    Unfinished(w, 0, 0, PadsLeft(|s|));
    assert s + [] == s;
  }

  lemma PadValue()
    ensures Map('=') == PAD && Value('=') == 0 && Pads('=') == 1
  {
  }

  lemma NothingLeft(g: int)
    ensures DecodeFrom("", 0, 0, g) == Decoded([], true)
  {
  }

  lemma {:induction false} SqueezeSolid(w: string, rest: string)
    requires forall i | 0 <= i < |w| :: Map(w[i]) != SKIP
    ensures Squeeze(w + rest) == w + Squeeze(rest)
  {
    hide Map;
    if w == "" {
      assert w + rest == rest;
    } else {
      MapTable(w[0]);
      assert (w + rest)[1..] == w[1..] + rest;
      SqueezeSolid(w[1..], rest);
    }
  }

  lemma {:induction false} EncodeSolid(s: seq<Byte>)
    ensures Squeeze(Encode(s)) == Encode(s)
    decreases |s|
  {
    hide Encode, Map, First, Value, Pads;
    if s == [] {
      EncodeNothing();
    } else {
      var w, rest := FirstFourValues(s);
      EncodeSolid(rest);
      SqueezeSolid(w, Encode(rest));
    }
  }

  /** Decoding gives back what was encoded, wherever spaces and line breaks were put in. */
  lemma RoundTrip(s: seq<Byte>, text: string)
    requires Squeeze(text) == Encode(s)
    ensures Decode(text) == Decoded(s, true)
  {
    DecodeSqueezed(text, 0, 0, 3);
    DecodeEncode(s);
  }

  // ---------- The encoder as it runs ----------

  /** Shifts and masks of a byte, as numbers. */
  lemma ShiftsAndMasks(a: bv8)
    ensures (a >> 2) as int == a as int / 4 && (a >> 4) as int == a as int / 16 && (a >> 6) as int == a as int / 64
    ensures (a & 3) as int == a as int % 4 && (a & 0xf) as int == a as int % 16 && (a & 0x3f) as int == a as int % 64
  {
    Shifts(a);
    Masks(a);
  }

  lemma Shifts(a: bv8)
    ensures (a >> 2) as int == a as int / 4 && (a >> 4) as int == a as int / 16 && (a >> 6) as int == a as int / 64
  {
  }

  lemma Masks(a: bv8)
    ensures (a & 3) as int == a as int % 4 && (a & 0xf) as int == a as int % 16 && (a & 0x3f) as int == a as int % 64
  {
    MaskTwo(a);
    MaskFour(a);
    MaskSix(a);
  }

  lemma MaskTwo(a: bv8)
    ensures (a & 3) as int == a as int % 4
  {
  }

  lemma MaskFour(a: bv8)
    ensures (a & 0xf) as int == a as int % 16
  {
  }

  lemma MaskSix(a: bv8)
    ensures (a & 0x3f) as int == a as int % 64
  {
  }

  lemma SumsOfParts(x: bv8, y: bv8)
    ensures x < 4 && y < 16 ==> ((x << 4) + y) as int == x as int * 16 + y as int
    ensures x < 16 && y < 4 ==> ((x << 2) + y) as int == x as int * 4 + y as int
  {
  }

  lemma PartsSmall(a: bv8)
    ensures a & 3 < 4 && a >> 4 < 16 && a & 0xf < 16 && a >> 6 < 4
  {
  }

  lemma ByteOfByte(a: Byte)
    ensures (a as bv8) as int == a
  {
    ByteOfNumber(a);
  }

  /** The four indices into the table of codes, as the encoder computes them. */
  function Index0(a: Byte): (r: int)
    ensures r == a / 4
  {
    Shifts(a as bv8);
    ByteOfByte(a);
    (a as bv8 >> 2) as int
  }

  function Index1(a: Byte, b: Byte): (r: int)
    ensures r == a % 4 * 16 + b / 16
  {
    Masked1(a as bv8, b as bv8);
    ByteOfByte(a);
    ByteOfByte(b);
    (((a as bv8 & 3) << 4) + (b as bv8 >> 4)) as int
  }

  lemma Masked1(a: bv8, b: bv8)
    ensures (((a & 3) << 4) + (b >> 4)) as int == a as int % 4 * 16 + b as int / 16
  {
    var x, y := a & 3, b >> 4;
    PartsSmall(a);
    PartsSmall(b);
    MaskTwo(a);
    Shifts(b);
    SumsOfParts(x, y);
  }

  function Index2(b: Byte, c: Byte): (r: int)
    ensures r == b % 16 * 4 + c / 64
  {
    Masked2(b as bv8, c as bv8);
    ByteOfByte(b);
    ByteOfByte(c);
    (((b as bv8 & 0xf) << 2) + (c as bv8 >> 6)) as int
  }

  lemma Masked2(b: bv8, c: bv8)
    ensures (((b & 0xf) << 2) + (c >> 6)) as int == b as int % 16 * 4 + c as int / 64
  {
    var x, y := b & 0xf, c >> 6;
    PartsSmall(b);
    PartsSmall(c);
    MaskFour(b);
    Shifts(c);
    SumsOfParts(x, y);
  }

  function Index3(c: Byte): (r: int)
    ensures r == c % 64
  {
    MaskSix(c as bv8);
    ByteOfByte(c);
    (c as bv8 & 0x3f) as int
  }

  lemma Quotient(n: nat, q: nat, r: nat)
    requires n == 64 * q + r && r < 64
    ensures n / 64 == q && n % 64 == r
  {
  }

  /** These quotients and remainders are the digits of the group. */
  lemma GroupDigits(a: Byte, b: Byte, c: Byte)
    ensures var n := Group(a, b, c);
            Digit(n, 3) == a / 4 && Digit(n, 2) == a % 4 * 16 + b / 16
            && Digit(n, 1) == b % 16 * 4 + c / 64 && Digit(n, 0) == c % 64
  {
    var n := Group(a, b, c);
    var n1, n2, n3 := a * 1024 + b * 4 + c / 64, a * 16 + b / 16, a / 4;
    Quotient(n, n1, c % 64);
    Quotient(n1, n2, b % 16 * 4 + c / 64);
    Quotient(n2, n3, a % 4 * 16 + b / 16);
    Quotient(n3, 0, n3);
    DigitByQuotients(n, n1, n2, n3);
  }

  lemma DigitByQuotients(n: nat, n1: nat, n2: nat, n3: nat)
    requires n1 == n / 64 && n2 == n1 / 64 && n3 == n2 / 64
    ensures Digit(n, 0) == n % 64 && Digit(n, 1) == n1 % 64 && Digit(n, 2) == n2 % 64 && Digit(n, 3) == n3 % 64
  {
    assert n / 4096 == n2;
    assert n / 262144 == n3;
  }

  /** Four characters to consecutive addresses. */
  method StoreFour(out: array<char>, at: nat, w: string)
    requires |w| == 4 && at + 4 <= out.Length
    modifies out
    ensures out[..at + 4] == old(out[..at]) + w
  {
    out[at], out[at + 1], out[at + 2], out[at + 3] := w[0], w[1], w[2], w[3];
  }

  /** What the encoder writes for three bytes. */
  function Three(a: Byte, b: Byte, c: Byte): (w: string)
    ensures |w| == 4
  {
    [Code(Index0(a)), Code(Index1(a, b)), Code(Index2(b, c)), Code(Index3(c))]
  }

  /** What the encoder writes for the last one or two bytes. */
  function Last(a: Byte, b: Byte, two: bool): (w: string)
    ensures |w| == 4
  {
    [Code(Index0(a)), Code(Index1(a, b)), if two then Code(Index2(b, 0)) else '=', '=']
  }

  lemma EncodeThree(s: seq<Byte>, i: nat)
    requires i + 3 <= |s|
    ensures Encode(s[i..]) == Three(s[i], s[i + 1], s[i + 2]) + Encode(s[i + 3..])
  {
    hide Code, Digit, Group;
    GroupDigits(s[i], s[i + 1], s[i + 2]);
    assert s[i..][3..] == s[i + 3..];
  }

  lemma EncodeEnd(s: seq<Byte>, i: nat)
    requires |s| - 3 < i < |s|
    ensures Encode(s[i..]) == Last(s[i], if i + 1 < |s| then s[i + 1] else 0, i + 1 < |s|)
  {
    hide Code, Digit, Group;
    GroupDigits(s[i], if i + 1 < |s| then s[i + 1] else 0, 0);
  }

  /** The loop of base64_encode over whole groups. */
  method EncodeGroups(input: seq<Byte>, out: array<char>) returns (p: nat, i: nat)
    requires 4 * ((|input| + 2) / 3) < out.Length
    modifies out
    ensures i <= |input| < i + 3 && p <= out.Length
    ensures Encode(input) == out[..p] + Encode(input[i..])
  {
    hide Three, Encode;
    EncodeLength(input);
    ghost var groups, k := |input| / 3, 0;
    var leven := 3 * (|input| / 3);
    assert leven == 3 * groups && leven <= |input| < leven + 3;
    p, i := 0, 0;
    assert input[0..] == input;
    while i < leven
      invariant i == 3 * k && k <= groups && p <= out.Length
      invariant Encode(input) == out[..p] + Encode(input[i..])
    {
      EncodeThree(input, i);
      k := k + 1;
      StoreFour(out, p, Three(input[i], input[i + 1], input[i + 2]));
      p, i := p + 4, i + 3;
    }
  }

  /** base64_encode into a buffer with room for the text and its NUL. */
  method EncodeInto(input: seq<Byte>, out: array<char>) returns (n: nat)
    requires 4 * ((|input| + 2) / 3) < out.Length
    modifies out
    ensures n == 4 * ((|input| + 2) / 3) && out[..n] == Encode(input) && out[n] == NUL
  {
    hide Last, Encode;
    EncodeLength(input);
    var p, i := EncodeGroups(input, out);
    if i < |input| {
      EncodeEnd(input, i);
      StoreFour(out, p, Last(input[i], if i + 1 < |input| then input[i + 1] else 0, i + 1 < |input|));
      p := p + 4;
    } else {
      EncodeNothing();
      assert input[i..] == [];
    }
    assert Encode(input) == out[..p];
    out[p] := NUL;
    n := p;
  }

  lemma EncodeNothing()
    ensures Encode([]) == ""
  {
  }

  // ---------- The decoder as it runs ----------

  /** base64_decode into a buffer with room for the bytes of the text: -1 for an invalid character. */
  method DecodeInto(input: string, out: array<Byte>) returns (r: int)
    requires NUL !in input && |Decode(input).bytes| <= out.Length
    modifies out
    ensures var d := Decode(input);
            out[..|d.bytes|] == d.bytes && r == if d.ok then |d.bytes| else -1
  {
    hide Map, DecodeFrom, GroupBytes;
    ghost var all := Decode(input);
    var x, y, z: nat, t: nat, g := 0, 0, 0, 0, 3;
    assert input[0..] == input;
    while x < |input|
      invariant 0 <= x <= |input| && 0 <= y < 4 && z <= out.Length
      invariant all == Behind(out[..z], DecodeFrom(input[x..], t, y, g))
    {
      DecodeUnfold(input, x, t, y, g);
      var c := Map(input[x]);
      x := x + 1;
      if c == INVALID {
        return -1;
      }
      if c == SKIP {
        continue;
      }
      if c == PAD {
        c := 0;
        g := g - 1;
      }
      t := t * 64 + c;
      y := y + 1;
      if y == 4 {
        ghost var d := DecodeFrom(input[x..], 0, 0, g);
        BehindTwice(out[..z], GroupBytes(t, g), d);
        z := StoreGroup(out, z, t, g);
        y, t := 0, 0;
      }
    }
    DecodeUnfold(input, x, t, y, g);
    r := z;
  }

  lemma BehindTwice(a: seq<Byte>, b: seq<Byte>, d: Decoded)
    ensures Behind(a, Behind(b, d)) == Behind(a + b, d)
  {
    assert a + (b + d.bytes) == a + b + d.bytes;
  }

  method StoreGroup(out: array<Byte>, z: nat, t: nat, g: int) returns (next: nat)
    requires z + |GroupBytes(t, g)| <= out.Length
    modifies out
    ensures next == z + |GroupBytes(t, g)| && out[..next] == old(out[..z]) + GroupBytes(t, g)
  {
    next := z;
    out[next] := t / 65536 % 256;
    next := next + 1;
    if g > 1 {
      out[next] := t / 256 % 256;
      next := next + 1;
    }
    if g > 2 {
      out[next] := t % 256;
      next := next + 1;
    }
  }

  lemma DecodeUnfold(s: string, x: nat, t: nat, y: nat, g: int)
    requires x <= |s| && y < 4
    ensures x == |s| ==> DecodeFrom(s[x..], t, y, g) == Decoded([], true)
    ensures x < |s| ==>
              var c, rest := Map(s[x]), s[x + 1..];
              var g', t' := if c == PAD then g - 1 else g, t * 64 + if c == PAD then 0 else c;
              DecodeFrom(s[x..], t, y, g) ==
              if c == INVALID then Decoded([], false)
              else if c == SKIP then DecodeFrom(rest, t, y, g)
              else if y == 3 then Behind(GroupBytes(t', g'), DecodeFrom(rest, 0, 0, g'))
              else DecodeFrom(rest, t', y + 1, g')
  {
    hide Map, GroupBytes;
    assert x < |s| ==> s[x..][1..] == s[x + 1..];
  }
}
