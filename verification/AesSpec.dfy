/** The transformations of AES-256 as FIPS 197 defines them. */
module AesSpec {
  import opened ByteXor

  /** One column of the state; also the first row of a circulant matrix over GF(2^8). */
  datatype Word = Word(k0: bv8, k1: bv8, k2: bv8, k3: bv8)

  /** The four columns. Byte r of column c is in row r. */
  datatype State = State(c0: Word, c1: Word, c2: Word, c3: Word)

  /** The 15 round keys of 16 bytes each. */
  type RoundKeys = s: seq<bv8> | |s| == 240 witness seq(240, _ => 0)

  const ROUNDS: nat := 14

  // ---------- GF(2^8) ----------

  function XTime(x: bv8): bv8 {
    (x << 1) ^ (((x >> 7) & 1) * 0x1b)
  }

  /** One term of the product: x if the bit of y is set. */
  function Term(x: bv8, y: bv8, bit: bv8): bv8 {
    if y & bit != 0 then x else 0
  }

  /** The product of two polynomials over GF(2) modulo x^8 + x^4 + x^3 + x + 1. */
  function GfMul(x: bv8, y: bv8): bv8 {
    var x2 := XTime(x);
    var x4 := XTime(x2);
    var x8 := XTime(x4);
    var x16 := XTime(x8);
    var x32 := XTime(x16);
    var x64 := XTime(x32);
    var x128 := XTime(x64);
    Add(Sum(Term(x, y, 0x01), Term(x2, y, 0x02), Term(x4, y, 0x04), Term(x8, y, 0x08)),
        Sum(Term(x16, y, 0x10), Term(x32, y, 0x20), Term(x64, y, 0x40), Term(x128, y, 0x80)))
  }

  function Sum(a: bv8, b: bv8, c: bv8, d: bv8): bv8 {
    Add(Add(a, b), Add(c, d))
  }

  const MIX := Word(0x02, 0x03, 0x01, 0x01)
  const INV_MIX := Word(0x0e, 0x0b, 0x0d, 0x09)

  /** The affine half of the S-box: bit i is the sum of bits i, i+4, i+5, i+6, i+7 and of bit i of 0x63. */
  function Affine(b: bv8): bv8 {
    b ^ b.RotateLeft(1) ^ b.RotateLeft(2) ^ b.RotateLeft(3) ^ b.RotateLeft(4) ^ 0x63
  }

  // ---------- Substitution boxes, one row of sixteen entries a line ----------

  function SBox(x: bv8): bv8 {
    var row: bv128 :=
      if x < 0x10 then 0x637c777b_f26b6fc5_3001672b_fed7ab76 else
      if x < 0x20 then 0xca82c97d_fa5947f0_add4a2af_9ca472c0 else
      if x < 0x30 then 0xb7fd9326_363ff7cc_34a5e5f1_71d83115 else
      if x < 0x40 then 0x04c723c3_1896059a_071280e2_eb27b275 else
      if x < 0x50 then 0x09832c1a_1b6e5aa0_523bd6b3_29e32f84 else
      if x < 0x60 then 0x53d100ed_20fcb15b_6acbbe39_4a4c58cf else
      if x < 0x70 then 0xd0efaafb_434d3385_45f9027f_503c9fa8 else
      if x < 0x80 then 0x51a3408f_929d38f5_bcb6da21_10fff3d2 else
      if x < 0x90 then 0xcd0c13ec_5f974417_c4a77e3d_645d1973 else
      if x < 0xa0 then 0x60814fdc_222a9088_46eeb814_de5e0bdb else
      if x < 0xb0 then 0xe0323a0a_4906245c_c2d3ac62_9195e479 else
      if x < 0xc0 then 0xe7c8376d_8dd54ea9_6c56f4ea_657aae08 else
      if x < 0xd0 then 0xba78252e_1ca6b4c6_e8dd741f_4bbd8b8a else
      if x < 0xe0 then 0x703eb566_4803f60e_613557b9_86c11d9e else
      if x < 0xf0 then 0xe1f89811_69d98e94_9b1e87e9_ce5528df else
      0x8ca1890d_bfe64268_41992d0f_b054bb16;
    ((row >> (8 * (15 - (x & 0x0f)))) & 0xff) as bv8
  }

  function RSBox(x: bv8): bv8 {
    var row: bv128 :=
      if x < 0x10 then 0x52096ad5_3036a538_bf40a39e_81f3d7fb else
      if x < 0x20 then 0x7ce33982_9b2fff87_348e4344_c4dee9cb else
      if x < 0x30 then 0x547b9432_a6c2233d_ee4c950b_42fac34e else
      if x < 0x40 then 0x082ea166_28d924b2_765ba249_6d8bd125 else
      if x < 0x50 then 0x72f8f664_86689816_d4a45ccc_5d65b692 else
      if x < 0x60 then 0x6c704850_fdedb9da_5e154657_a78d9d84 else
      if x < 0x70 then 0x90d8ab00_8cbcd30a_f7e45805_b8b34506 else
      if x < 0x80 then 0xd02c1e8f_ca3f0f02_c1afbd03_01138a6b else
      if x < 0x90 then 0x3a911141_4f67dcea_97f2cfce_f0b4e673 else
      if x < 0xa0 then 0x96ac7422_e7ad3585_e2f937e8_1c75df6e else
      if x < 0xb0 then 0x47f11a71_1d29c589_6fb7620e_aa18be1b else
      if x < 0xc0 then 0xfc563e4b_c6d27920_9adbc0fe_78cd5af4 else
      if x < 0xd0 then 0x1fdda833_8807c731_b1121059_2780ec5f else
      if x < 0xe0 then 0x60517fa9_19b54a0d_2de57a9f_93c99cef else
      if x < 0xf0 then 0xa0e03b4d_ae2af5b0_c8ebbb3c_83539961 else
      0x172b047e_ba77d626_e1691463_55210c7d;
    ((row >> (8 * (15 - (x & 0x0f)))) & 0xff) as bv8
  }

  // ---------- State transformations ----------

  function WordAt(s: seq<bv8>, i: nat): Word
    requires i + 4 <= |s|
  {
    Word(s[i], s[i + 1], s[i + 2], s[i + 3])
  }

  function StateAt(s: seq<bv8>, i: nat): State
    requires i + 16 <= |s|
  {
    State(WordAt(s, i), WordAt(s, i + 4), WordAt(s, i + 8), WordAt(s, i + 12))
  }

  function RoundKey(w: RoundKeys, round: nat): State
    requires round <= ROUNDS
  {
    StateAt(w, 16 * round)
  }

  function XorWord(a: Word, b: Word): Word {
    Word(Add(a.k0, b.k0), Add(a.k1, b.k1), Add(a.k2, b.k2), Add(a.k3, b.k3))
  }

  function Xor(s: State, t: State): State {
    State(XorWord(s.c0, t.c0), XorWord(s.c1, t.c1), XorWord(s.c2, t.c2), XorWord(s.c3, t.c3))
  }

  function SubWord(a: Word): Word {
    Word(SBox(a.k0), SBox(a.k1), SBox(a.k2), SBox(a.k3))
  }

  function SubBytes(s: State): State {
    State(SubWord(s.c0), SubWord(s.c1), SubWord(s.c2), SubWord(s.c3))
  }

  function InvSubWord(a: Word): Word {
    Word(RSBox(a.k0), RSBox(a.k1), RSBox(a.k2), RSBox(a.k3))
  }

  function InvSubBytes(s: State): State {
    State(InvSubWord(s.c0), InvSubWord(s.c1), InvSubWord(s.c2), InvSubWord(s.c3))
  }

  /** Row r moves r columns to the left. */
  function ShiftRows(s: State): State {
    State(Word(s.c0.k0, s.c1.k1, s.c2.k2, s.c3.k3), Word(s.c1.k0, s.c2.k1, s.c3.k2, s.c0.k3),
          Word(s.c2.k0, s.c3.k1, s.c0.k2, s.c1.k3), Word(s.c3.k0, s.c0.k1, s.c1.k2, s.c2.k3))
  }

  /** Row r moves r columns to the right. */
  function InvShiftRows(s: State): State {
    State(Word(s.c0.k0, s.c3.k1, s.c2.k2, s.c1.k3), Word(s.c1.k0, s.c0.k1, s.c3.k2, s.c2.k3),
          Word(s.c2.k0, s.c1.k1, s.c0.k2, s.c3.k3), Word(s.c3.k0, s.c2.k1, s.c1.k2, s.c0.k3))
  }

  /** One byte of a column multiplied by a circulant matrix: a is the byte of the same row and
      b, c, d follow it down the column. */
  function Dot(k: Word, a: bv8, b: bv8, c: bv8, d: bv8): bv8 {
    Sum(GfMul(a, k.k0), GfMul(b, k.k1), GfMul(c, k.k2), GfMul(d, k.k3))
  }

  function Times(k: Word, w: Word): Word {
    Word(Dot(k, w.k0, w.k1, w.k2, w.k3), Dot(k, w.k1, w.k2, w.k3, w.k0),
         Dot(k, w.k2, w.k3, w.k0, w.k1), Dot(k, w.k3, w.k0, w.k1, w.k2))
  }

  function MixColumns(s: State): State {
    State(Times(MIX, s.c0), Times(MIX, s.c1), Times(MIX, s.c2), Times(MIX, s.c3))
  }

  function InvMixColumns(s: State): State {
    State(Times(INV_MIX, s.c0), Times(INV_MIX, s.c1), Times(INV_MIX, s.c2), Times(INV_MIX, s.c3))
  }

  // ---------- The cipher and its inverse ----------

  function Round(w: RoundKeys, round: nat, s: State): State
    requires round <= ROUNDS
  {
    Xor(MixColumns(ShiftRows(SubBytes(s))), RoundKey(w, round))
  }

  /** The state after rounds 1 .. n. */
  function Rounds(w: RoundKeys, n: nat, s: State): State
    requires n <= ROUNDS
  {
    if n == 0 then s else Round(w, n, Rounds(w, n - 1, s))
  }

  function Cipher(w: RoundKeys, s: State): State {
    Xor(ShiftRows(SubBytes(Rounds(w, 13, Xor(s, RoundKey(w, 0))))), RoundKey(w, 14))
  }

  function InvRound(w: RoundKeys, round: nat, s: State): State
    requires round <= ROUNDS
  {
    InvMixColumns(Xor(InvSubBytes(InvShiftRows(s)), RoundKey(w, round)))
  }

  /** The state after inverse rounds n, n-1 .. 1. */
  function InvRounds(w: RoundKeys, n: nat, s: State): State
    requires n <= ROUNDS
  {
    if n == 0 then s else InvRounds(w, n - 1, InvRound(w, n, s))
  }

  function InvCipher(w: RoundKeys, s: State): State {
    Xor(InvSubBytes(InvShiftRows(InvRounds(w, 13, Xor(s, RoundKey(w, 14))))), RoundKey(w, 0))
  }

  // ---------- Proofs ----------

  lemma XorWordTwice(a: Word, b: Word)
    ensures XorWord(XorWord(a, b), b) == a
  {
    hide Add;
    AddTwice(a.k0, b.k0);
    AddTwice(a.k1, b.k1);
    AddTwice(a.k2, b.k2);
    AddTwice(a.k3, b.k3);
  }

  lemma XorTwice(s: State, t: State)
    ensures Xor(Xor(s, t), t) == s
  {
    hide XorWord;
    XorWordTwice(s.c0, t.c0);
    XorWordTwice(s.c1, t.c1);
    XorWordTwice(s.c2, t.c2);
    XorWordTwice(s.c3, t.c3);
  }

  lemma SBoxInverse(x: bv8)
    ensures RSBox(SBox(x)) == x
  {}

  lemma RSBoxInverse(x: bv8)
    ensures SBox(RSBox(x)) == x
  {}

  lemma SubBytesInverse(s: State)
    ensures InvSubBytes(SubBytes(s)) == s && SubBytes(InvSubBytes(s)) == s
  {
    hide SBox, RSBox;
    forall x
      ensures RSBox(SBox(x)) == x && SBox(RSBox(x)) == x
    {
      SBoxInverse(x);
      RSBoxInverse(x);
    }
  }

  lemma ShiftRowsInverse(s: State)
    ensures InvShiftRows(ShiftRows(s)) == s && ShiftRows(InvShiftRows(s)) == s
  {}

  /** The inverse of Affine. */
  function UnAffine(b: bv8): bv8 {
    b.RotateLeft(1) ^ b.RotateLeft(3) ^ b.RotateLeft(6) ^ 0x05
  }

  lemma SBoxIsAffineOfInverse(x: bv8)
    ensures SBox(x) == Affine(UnAffine(SBox(x)))
    ensures if x == 0 then UnAffine(SBox(x)) == 0 else GfMul(x, UnAffine(SBox(x))) == 1
  {}

  lemma TermAdd(x: bv8, y: bv8, k: bv8, bit: bv8)
    ensures Term(Add(x, y), k, bit) == Add(Term(x, k, bit), Term(y, k, bit))
  {}

  lemma XTimeAdd(x: bv8, y: bv8)
    ensures XTime(Add(x, y)) == Add(XTime(x), XTime(y))
  {}

  lemma AddZero(x: bv8)
    ensures Add(x, 0) == x == Add(0, x)
  {}

  lemma AddComm(a: bv8, b: bv8)
    ensures Add(a, b) == Add(b, a)
  {}

  lemma AddAssoc(a: bv8, b: bv8, c: bv8)
    ensures Add(Add(a, b), c) == Add(a, Add(b, c))
  {
    assert (a ^ b) ^ c == a ^ (b ^ c);
  }

  lemma Swap(a: bv8, b: bv8, c: bv8, d: bv8)
    ensures Sum(a, b, c, d) == Sum(a, c, b, d)
  {
    hide Add;
    AddAssoc(a, b, Add(c, d));
    AddAssoc(b, c, d);
    AddComm(b, c);
    AddAssoc(c, b, d);
    AddAssoc(a, c, Add(b, d));
  }

  lemma Rotate(a: bv8, b: bv8, c: bv8, d: bv8)
    ensures Sum(a, b, c, d) == Sum(d, a, b, c)
  {
    hide Add;
    AddComm(Add(a, b), Add(c, d));
    AddComm(c, d);
    Swap(d, c, a, b);
    AddComm(c, b);
  }

  lemma SumAdd(a: bv8, b: bv8, c: bv8, d: bv8, a': bv8, b': bv8, c': bv8, d': bv8)
    ensures Sum(Add(a, a'), Add(b, b'), Add(c, c'), Add(d, d')) == Add(Sum(a, b, c, d), Sum(a', b', c', d'))
  {
    hide Add;
    Swap(a, a', b, b');
    Swap(c, c', d, d');
    Swap(Add(a, b), Add(a', b'), Add(c, d), Add(c', d'));
  }

  lemma GfMulAdd(x: bv8, y: bv8, k: bv8)
    ensures GfMul(Add(x, y), k) == Add(GfMul(x, k), GfMul(y, k))
  {
    hide Add, Sum, Term, XTime;
    var x2, y2 := XTime(x), XTime(y);
    var x4, y4 := XTime(x2), XTime(y2);
    var x8, y8 := XTime(x4), XTime(y4);
    var x16, y16 := XTime(x8), XTime(y8);
    var x32, y32 := XTime(x16), XTime(y16);
    var x64, y64 := XTime(x32), XTime(y32);
    var x128, y128 := XTime(x64), XTime(y64);
    XTimeAdd(x, y); XTimeAdd(x2, y2); XTimeAdd(x4, y4); XTimeAdd(x8, y8);
    XTimeAdd(x16, y16); XTimeAdd(x32, y32); XTimeAdd(x64, y64);
    TermAdd(x, y, k, 0x01); TermAdd(x2, y2, k, 0x02); TermAdd(x4, y4, k, 0x04); TermAdd(x8, y8, k, 0x08);
    TermAdd(x16, y16, k, 0x10); TermAdd(x32, y32, k, 0x20); TermAdd(x64, y64, k, 0x40); TermAdd(x128, y128, k, 0x80);
    SumAdd(Term(x, k, 0x01), Term(x2, k, 0x02), Term(x4, k, 0x04), Term(x8, k, 0x08),
           Term(y, k, 0x01), Term(y2, k, 0x02), Term(y4, k, 0x04), Term(y8, k, 0x08));
    SumAdd(Term(x16, k, 0x10), Term(x32, k, 0x20), Term(x64, k, 0x40), Term(x128, k, 0x80),
           Term(y16, k, 0x10), Term(y32, k, 0x20), Term(y64, k, 0x40), Term(y128, k, 0x80));
    var u, v := Sum(Term(x, k, 0x01), Term(x2, k, 0x02), Term(x4, k, 0x04), Term(x8, k, 0x08)),
                Sum(Term(x16, k, 0x10), Term(x32, k, 0x20), Term(x64, k, 0x40), Term(x128, k, 0x80));
    var u', v' := Sum(Term(y, k, 0x01), Term(y2, k, 0x02), Term(y4, k, 0x04), Term(y8, k, 0x08)),
                  Sum(Term(y16, k, 0x10), Term(y32, k, 0x20), Term(y64, k, 0x40), Term(y128, k, 0x80));
    AddSwap(u, u', v, v');
  }

  lemma AddSwap(a: bv8, b: bv8, c: bv8, d: bv8)
    ensures Add(Add(a, b), Add(c, d)) == Add(Add(a, c), Add(b, d))
  {
    Swap(a, b, c, d);
  }

  lemma GfMulSum(a: bv8, b: bv8, c: bv8, d: bv8, k: bv8)
    ensures GfMul(Sum(a, b, c, d), k) == Sum(GfMul(a, k), GfMul(b, k), GfMul(c, k), GfMul(d, k))
  {
    hide Add, GfMul;
    GfMulAdd(Add(a, b), Add(c, d), k);
    GfMulAdd(a, b, k);
    GfMulAdd(c, d, k);
  }

  /** Adding up a four by four table by rows or by columns. */
  lemma Transpose(a: Word, b: Word, c: Word, d: Word)
    ensures Sum(Sum(a.k0, a.k1, a.k2, a.k3), Sum(b.k0, b.k1, b.k2, b.k3),
                Sum(c.k0, c.k1, c.k2, c.k3), Sum(d.k0, d.k1, d.k2, d.k3))
         == Sum(Sum(a.k0, b.k0, c.k0, d.k0), Sum(a.k1, b.k1, c.k1, d.k1),
                Sum(a.k2, b.k2, c.k2, d.k2), Sum(a.k3, b.k3, c.k3, d.k3))
  {
    hide Add;
    Swap(Add(a.k0, a.k1), Add(a.k2, a.k3), Add(b.k0, b.k1), Add(b.k2, b.k3));
    Swap(Add(c.k0, c.k1), Add(c.k2, c.k3), Add(d.k0, d.k1), Add(d.k2, d.k3));
    Swap(a.k0, a.k1, b.k0, b.k1);
    Swap(a.k2, a.k3, b.k2, b.k3);
    Swap(c.k0, c.k1, d.k0, d.k1);
    Swap(c.k2, c.k3, d.k2, d.k3);
    var a0, a1, a2, a3 := Add(a.k0, b.k0), Add(a.k1, b.k1), Add(a.k2, b.k2), Add(a.k3, b.k3);
    var c0, c1, c2, c3 := Add(c.k0, d.k0), Add(c.k1, d.k1), Add(c.k2, d.k2), Add(c.k3, d.k3);
    Swap(Add(a0, a1), Add(a2, a3), Add(c0, c1), Add(c2, c3));
    Swap(a0, a1, c0, c1);
    Swap(a2, a3, c2, c3);
  }

  /** The entry that x contributes to its own row, and to the rows one, two and three further up,
      when the circulant p is applied after the circulant q. */
  function Entry(p: Word, q: Word, x: bv8, shift: nat): bv8 {
    var y0, y1, y2, y3 := GfMul(x, q.k0), GfMul(x, q.k1), GfMul(x, q.k2), GfMul(x, q.k3);
    match shift
    case 0 => Sum(GfMul(y0, p.k0), GfMul(y3, p.k1), GfMul(y2, p.k2), GfMul(y1, p.k3))
    case 1 => Sum(GfMul(y1, p.k0), GfMul(y0, p.k1), GfMul(y3, p.k2), GfMul(y2, p.k3))
    case 2 => Sum(GfMul(y2, p.k0), GfMul(y1, p.k1), GfMul(y0, p.k2), GfMul(y3, p.k3))
    case _ => Sum(GfMul(y3, p.k0), GfMul(y2, p.k1), GfMul(y1, p.k2), GfMul(y0, p.k3))
  }

  lemma DotDot(p: Word, q: Word, a: bv8, b: bv8, c: bv8, d: bv8)
    ensures Dot(p, Dot(q, a, b, c, d), Dot(q, b, c, d, a), Dot(q, c, d, a, b), Dot(q, d, a, b, c))
         == Sum(Entry(p, q, a, 0), Entry(p, q, b, 1), Entry(p, q, c, 2), Entry(p, q, d, 3))
  {
    hide Add, GfMul, Sum;
    var a0, a1, a2, a3 := GfMul(a, q.k0), GfMul(a, q.k1), GfMul(a, q.k2), GfMul(a, q.k3);
    var b0, b1, b2, b3 := GfMul(b, q.k0), GfMul(b, q.k1), GfMul(b, q.k2), GfMul(b, q.k3);
    var c0, c1, c2, c3 := GfMul(c, q.k0), GfMul(c, q.k1), GfMul(c, q.k2), GfMul(c, q.k3);
    var d0, d1, d2, d3 := GfMul(d, q.k0), GfMul(d, q.k1), GfMul(d, q.k2), GfMul(d, q.k3);
    Rotate(b0, c1, d2, a3);
    Rotate(c0, d1, a2, b3);
    Rotate(b3, c0, d1, a2);
    Rotate(d0, a1, b2, c3);
    Rotate(c3, d0, a1, b2);
    Rotate(b2, c3, d0, a1);
    GfMulSum(a0, b1, c2, d3, p.k0);
    GfMulSum(a3, b0, c1, d2, p.k1);
    GfMulSum(a2, b3, c0, d1, p.k2);
    GfMulSum(a1, b2, c3, d0, p.k3);
    Transpose(Word(GfMul(a0, p.k0), GfMul(b1, p.k0), GfMul(c2, p.k0), GfMul(d3, p.k0)),
              Word(GfMul(a3, p.k1), GfMul(b0, p.k1), GfMul(c1, p.k1), GfMul(d2, p.k1)),
              Word(GfMul(a2, p.k2), GfMul(b3, p.k2), GfMul(c0, p.k2), GfMul(d1, p.k2)),
              Word(GfMul(a1, p.k3), GfMul(b2, p.k3), GfMul(c3, p.k3), GfMul(d0, p.k3)));
  }

  lemma TermAddRight(x: bv8, k: bv8, l: bv8, bit: bv8)
    requires bit & (bit - 1) == 0
    ensures Add(Term(x, k, bit), Term(x, l, bit)) == Term(x, k ^ l, bit)
  {}

  lemma GfMulAddRight(x: bv8, k: bv8, l: bv8)
    ensures Add(GfMul(x, k), GfMul(x, l)) == GfMul(x, k ^ l)
  {
    hide Add, Sum, Term, XTime;
    var x2 := XTime(x);
    var x4 := XTime(x2);
    var x8 := XTime(x4);
    var x16 := XTime(x8);
    var x32 := XTime(x16);
    var x64 := XTime(x32);
    var x128 := XTime(x64);
    TermAddRight(x, k, l, 0x01); TermAddRight(x2, k, l, 0x02); TermAddRight(x4, k, l, 0x04); TermAddRight(x8, k, l, 0x08);
    TermAddRight(x16, k, l, 0x10); TermAddRight(x32, k, l, 0x20); TermAddRight(x64, k, l, 0x40); TermAddRight(x128, k, l, 0x80);
    SumAdd(Term(x, k, 0x01), Term(x2, k, 0x02), Term(x4, k, 0x04), Term(x8, k, 0x08),
           Term(x, l, 0x01), Term(x2, l, 0x02), Term(x4, l, 0x04), Term(x8, l, 0x08));
    SumAdd(Term(x16, k, 0x10), Term(x32, k, 0x20), Term(x64, k, 0x40), Term(x128, k, 0x80),
           Term(x16, l, 0x10), Term(x32, l, 0x20), Term(x64, l, 0x40), Term(x128, l, 0x80));
    AddSwap(Sum(Term(x, k, 0x01), Term(x2, k, 0x02), Term(x4, k, 0x04), Term(x8, k, 0x08)),
            Sum(Term(x16, k, 0x10), Term(x32, k, 0x20), Term(x64, k, 0x40), Term(x128, k, 0x80)),
            Sum(Term(x, l, 0x01), Term(x2, l, 0x02), Term(x4, l, 0x04), Term(x8, l, 0x08)),
            Sum(Term(x16, l, 0x10), Term(x32, l, 0x20), Term(x64, l, 0x40), Term(x128, l, 0x80)));
  }

  lemma TermHigh(x: bv8, k: bv8)
    requires k < 32
    ensures Term(x, k, 0x20) == Term(x, k, 0x40) == Term(x, k, 0x80) == 0
    ensures k < 16 ==> Term(x, k, 0x10) == 0
  {}

  lemma TermXTime(x: bv8, k: bv8, bit: bv8)
    ensures XTime(Term(x, k, bit)) == Term(XTime(x), k, bit)
  {}

  lemma TermShift(x: bv8, k: bv8)
    requires k < 16
    ensures Term(x, k << 1, 0x01) == 0
    ensures Term(x, k << 1, 0x02) == Term(x, k, 0x01) && Term(x, k << 1, 0x04) == Term(x, k, 0x02)
    ensures Term(x, k << 1, 0x08) == Term(x, k, 0x04) && Term(x, k << 1, 0x10) == Term(x, k, 0x08)
  {}

  lemma GfMulUnfold(x: bv8, k: bv8)
    requires k < 32
    ensures var x2, x4, x8, x16 := XTime(x), XTime(XTime(x)), XTime(XTime(XTime(x))), XTime(XTime(XTime(XTime(x))));
            GfMul(x, k) == Add(Sum(Term(x, k, 0x01), Term(x2, k, 0x02), Term(x4, k, 0x04), Term(x8, k, 0x08)), Term(x16, k, 0x10))
  {
    hide Add, Term, XTime;
    var x16 := XTime(XTime(XTime(XTime(x))));
    TermHigh(XTime(x16), k);
    TermHigh(XTime(XTime(x16)), k);
    TermHigh(XTime(XTime(XTime(x16))), k);
    AddZero(0);
    AddZero(Term(x16, k, 0x10));
  }

  /** Multiplying the other factor by x. */
  lemma GfMulShift(x: bv8, k: bv8)
    requires k < 16
    ensures GfMul(XTime(x), k) == GfMul(x, k << 1)
  {
    hide Add, Term, XTime, GfMul;
    assert (k << 1) < 32;
    var x2, x4, x8, x16 := XTime(x), XTime(XTime(x)), XTime(XTime(XTime(x))), XTime(XTime(XTime(XTime(x))));
    var t0, t1, t2, t3 := Term(x2, k, 0x01), Term(x4, k, 0x02), Term(x8, k, 0x04), Term(x16, k, 0x08);
    GfMulUnfold(x2, k);
    GfMulUnfold(x, k << 1);
    TermHigh(XTime(x16), k);
    TermShift(x, k);
    TermShift(x2, k);
    TermShift(x4, k);
    TermShift(x8, k);
    TermShift(x16, k);
    AddZero(Add(t0, 0));
    AddZero(t0);
    AddZero(Sum(t0, t1, t2, t3));
    AddAssoc(t0, t1, t2);
    AddAssoc(Add(t0, t1), t2, t3);
  }

  lemma XTimeGfMul(x: bv8, k: bv8)
    requires k < 16
    ensures XTime(GfMul(x, k)) == GfMul(XTime(x), k)
  {
    hide Add, Term, XTime, GfMul;
    var x2, x4, x8, x16 := XTime(x), XTime(XTime(x)), XTime(XTime(XTime(x))), XTime(XTime(XTime(XTime(x))));
    GfMulUnfold(x, k);
    GfMulUnfold(x2, k);
    TermHigh(x16, k);
    TermHigh(XTime(x16), k);
    AddZero(Sum(Term(x, k, 0x01), Term(x2, k, 0x02), Term(x4, k, 0x04), Term(x8, k, 0x08)));
    AddZero(Sum(Term(x2, k, 0x01), Term(x4, k, 0x02), Term(x8, k, 0x04), Term(x16, k, 0x08)));
    XTimeAdd(Add(Term(x, k, 0x01), Term(x2, k, 0x02)), Add(Term(x4, k, 0x04), Term(x8, k, 0x08)));
    XTimeAdd(Term(x, k, 0x01), Term(x2, k, 0x02));
    XTimeAdd(Term(x4, k, 0x04), Term(x8, k, 0x08));
    TermXTime(x, k, 0x01);
    TermXTime(x2, k, 0x02);
    TermXTime(x4, k, 0x04);
    TermXTime(x8, k, 0x08);
  }

  lemma TermSmall(x: bv8)
    ensures Term(x, 0, 0x01) == Term(x, 0, 0x02) == Term(x, 0, 0x04) == Term(x, 0, 0x08) == Term(x, 0, 0x10) == 0
    ensures Term(x, 1, 0x02) == Term(x, 1, 0x04) == Term(x, 1, 0x08) == Term(x, 1, 0x10) == 0
    ensures Term(x, 2, 0x01) == Term(x, 2, 0x04) == Term(x, 2, 0x08) == Term(x, 2, 0x10) == 0
    ensures Term(x, 1, 0x01) == Term(x, 2, 0x02) == x
  {}

  lemma GfMulSmall(x: bv8)
    ensures GfMul(x, 0) == 0 && GfMul(x, 1) == x && GfMul(x, 2) == XTime(x) && GfMul(x, 3) == Add(x, XTime(x))
  {
    hide Add, Term, XTime, GfMul;
    var x2, x4, x8, x16 := XTime(x), XTime(XTime(x)), XTime(XTime(XTime(x))), XTime(XTime(XTime(XTime(x))));
    GfMulUnfold(x, 0);
    GfMulUnfold(x, 1);
    GfMulUnfold(x, 2);
    GfMulAddRight(x, 1, 2);
    TermSmall(x);
    TermSmall(x2);
    TermSmall(x4);
    TermSmall(x8);
    TermSmall(x16);
    AddZero(0);
    AddZero(x);
    AddZero(x2);
  }

  /** The product of a polynomial of degree below 4 with 1, x or x + 1, without reduction. */
  function Short(k: bv8, m: bv8): bv8 {
    if m == 1 then k else if m == 2 then k << 1 else k ^ (k << 1)
  }

  lemma GfMulGfMul(x: bv8, k: bv8, m: bv8)
    requires k < 16 && 1 <= m <= 3
    ensures GfMul(GfMul(x, k), m) == GfMul(x, Short(k, m)) == GfMul(GfMul(x, m), k)
  {
    hide Add, XTime, GfMul;
    GfMulSmall(GfMul(x, k));
    GfMulSmall(x);
    XTimeGfMul(x, k);
    GfMulShift(x, k);
    GfMulAdd(x, XTime(x), k);
    GfMulAddRight(x, k, k << 1);
  }

  lemma SumOfProducts(x: bv8, k0: bv8, k1: bv8, k2: bv8, k3: bv8)
    ensures Sum(GfMul(x, k0), GfMul(x, k1), GfMul(x, k2), GfMul(x, k3)) == GfMul(x, (k0 ^ k1) ^ (k2 ^ k3))
  {
    hide Add, GfMul;
    GfMulAddRight(x, k0, k1);
    GfMulAddRight(x, k2, k3);
    GfMulAddRight(x, k0 ^ k1, k2 ^ k3);
  }

  lemma SumOfShorts(x: bv8, k0: bv8, m0: bv8, k1: bv8, m1: bv8, k2: bv8, m2: bv8, k3: bv8, m3: bv8)
    requires k0 < 16 && k1 < 16 && k2 < 16 && k3 < 16
    requires 1 <= m0 <= 3 && 1 <= m1 <= 3 && 1 <= m2 <= 3 && 1 <= m3 <= 3
    ensures Sum(GfMul(GfMul(x, k0), m0), GfMul(GfMul(x, k1), m1), GfMul(GfMul(x, k2), m2), GfMul(GfMul(x, k3), m3))
         == GfMul(x, (Short(k0, m0) ^ Short(k1, m1)) ^ (Short(k2, m2) ^ Short(k3, m3)))
         == Sum(GfMul(GfMul(x, m0), k0), GfMul(GfMul(x, m1), k1), GfMul(GfMul(x, m2), k2), GfMul(GfMul(x, m3), k3))
  {
    hide Add, Sum, GfMul, Short;
    GfMulGfMul(x, k0, m0);
    GfMulGfMul(x, k1, m1);
    GfMulGfMul(x, k2, m2);
    GfMulGfMul(x, k3, m3);
    SumOfProducts(x, Short(k0, m0), Short(k1, m1), Short(k2, m2), Short(k3, m3));
  }

  /** The two matrices are inverse to each other. */
  lemma EntryInverse(p: Word, q: Word, x: bv8)
    requires (p == MIX && q == INV_MIX) || (p == INV_MIX && q == MIX)
    ensures Entry(p, q, x, 0) == x
    ensures Entry(p, q, x, 1) == Entry(p, q, x, 2) == Entry(p, q, x, 3) == 0
  {
    hide Add, Sum, GfMul;
    GfMulSmall(x);
    if p == INV_MIX {
      SumOfShorts(x, 0x0e, 2, 0x0b, 1, 0x0d, 1, 0x09, 3);
      SumOfShorts(x, 0x0e, 3, 0x0b, 2, 0x0d, 1, 0x09, 1);
      SumOfShorts(x, 0x0e, 1, 0x0b, 3, 0x0d, 2, 0x09, 1);
      SumOfShorts(x, 0x0e, 1, 0x0b, 1, 0x0d, 3, 0x09, 2);
    } else {
      SumOfShorts(x, 0x0e, 2, 0x09, 3, 0x0d, 1, 0x0b, 1);
      SumOfShorts(x, 0x0b, 2, 0x0e, 3, 0x09, 1, 0x0d, 1);
      SumOfShorts(x, 0x0d, 2, 0x0b, 3, 0x0e, 1, 0x09, 1);
      SumOfShorts(x, 0x09, 2, 0x0d, 3, 0x0b, 1, 0x0e, 1);
    }
  }

  lemma DotInverse(p: Word, q: Word, a: bv8, b: bv8, c: bv8, d: bv8)
    requires (p == MIX && q == INV_MIX) || (p == INV_MIX && q == MIX)
    ensures Dot(p, Dot(q, a, b, c, d), Dot(q, b, c, d, a), Dot(q, c, d, a, b), Dot(q, d, a, b, c)) == a
  {
    hide Dot, Entry, Add;
    DotDot(p, q, a, b, c, d);
    EntryInverse(p, q, a);
    EntryInverse(p, q, b);
    EntryInverse(p, q, c);
    EntryInverse(p, q, d);
    AddZero(a);
    AddZero(0);
  }

  lemma TimesInverse(w: Word)
    ensures Times(INV_MIX, Times(MIX, w)) == w == Times(MIX, Times(INV_MIX, w))
  {
    hide Dot;
    forall p, q | (p == MIX && q == INV_MIX) || (p == INV_MIX && q == MIX)
      ensures Times(p, Times(q, w)) == w
    {
      DotInverse(p, q, w.k0, w.k1, w.k2, w.k3);
      DotInverse(p, q, w.k1, w.k2, w.k3, w.k0);
      DotInverse(p, q, w.k2, w.k3, w.k0, w.k1);
      DotInverse(p, q, w.k3, w.k0, w.k1, w.k2);
    }
  }

  lemma MixColumnsInverse(s: State)
    ensures InvMixColumns(MixColumns(s)) == s == MixColumns(InvMixColumns(s))
  {
    hide Times;
    TimesInverse(s.c0);
    TimesInverse(s.c1);
    TimesInverse(s.c2);
    TimesInverse(s.c3);
  }

  /** One inverse round takes the state between ShiftRows and AddRoundKey back by one round. */
  lemma RoundInverse(w: RoundKeys, n: nat, s: State)
    requires n <= ROUNDS
    ensures InvRound(w, n, ShiftRows(SubBytes(Round(w, n, s)))) == ShiftRows(SubBytes(s))
  {
    hide ShiftRows, SubBytes, MixColumns, InvMixColumns, InvShiftRows, InvSubBytes, Xor;
    var t := ShiftRows(SubBytes(s));
    ShiftRowsInverse(SubBytes(Round(w, n, s)));
    SubBytesInverse(Round(w, n, s));
    XorTwice(MixColumns(t), RoundKey(w, n));
    MixColumnsInverse(t);
  }

  lemma {:induction false} RoundsInverse(w: RoundKeys, n: nat, s: State)
    requires n <= ROUNDS
    ensures InvRounds(w, n, ShiftRows(SubBytes(Rounds(w, n, s)))) == ShiftRows(SubBytes(s))
  {
    hide InvRound, Round, ShiftRows, SubBytes;
    if n > 0 {
      RoundInverse(w, n, Rounds(w, n - 1, s));
      RoundsInverse(w, n - 1, s);
    }
  }

  /** Decryption undoes encryption, for every block and every array of round keys. */
  lemma CipherInverse(w: RoundKeys, s: State)
    ensures InvCipher(w, Cipher(w, s)) == s
  {
    hide ShiftRows, SubBytes, InvShiftRows, InvSubBytes, Xor, Rounds, InvRounds, RoundKey;
    var t := Xor(s, RoundKey(w, 0));
    XorTwice(ShiftRows(SubBytes(Rounds(w, 13, t))), RoundKey(w, 14));
    RoundsInverse(w, 13, t);
    ShiftRowsInverse(SubBytes(t));
    SubBytesInverse(t);
    XorTwice(s, RoundKey(w, 0));
  }

  /** A round takes the state after InvSubBytes forward by one inverse round. */
  lemma InvRoundInverse(w: RoundKeys, n: nat, s: State)
    requires n <= ROUNDS
    ensures Round(w, n, InvSubBytes(InvShiftRows(InvRound(w, n, s)))) == InvSubBytes(InvShiftRows(s))
  {
    hide ShiftRows, SubBytes, MixColumns, InvMixColumns, InvShiftRows, InvSubBytes, Xor;
    var t := InvSubBytes(InvShiftRows(s));
    SubBytesInverse(InvShiftRows(InvRound(w, n, s)));
    ShiftRowsInverse(InvRound(w, n, s));
    MixColumnsInverse(Xor(t, RoundKey(w, n)));
    XorTwice(t, RoundKey(w, n));
  }

  lemma {:induction false} InvRoundsInverse(w: RoundKeys, n: nat, s: State)
    requires n <= ROUNDS
    ensures Rounds(w, n, InvSubBytes(InvShiftRows(InvRounds(w, n, s)))) == InvSubBytes(InvShiftRows(s))
  {
    hide InvRound, Round, InvShiftRows, InvSubBytes;
    if n > 0 {
      InvRoundsInverse(w, n - 1, InvRound(w, n, s));
      InvRoundInverse(w, n, s);
    }
  }

  /** Encryption undoes decryption: the cipher is a permutation of the blocks. */
  lemma InvCipherInverse(w: RoundKeys, s: State)
    ensures Cipher(w, InvCipher(w, s)) == s
  {
    hide ShiftRows, SubBytes, InvShiftRows, InvSubBytes, Xor, Rounds, InvRounds, RoundKey;
    var t := Xor(s, RoundKey(w, 14));
    XorTwice(InvSubBytes(InvShiftRows(InvRounds(w, 13, t))), RoundKey(w, 0));
    InvRoundsInverse(w, 13, t);
    SubBytesInverse(InvShiftRows(t));
    ShiftRowsInverse(t);
    XorTwice(s, RoundKey(w, 14));
  }
}
