/** SHA-256 as FIPS 180-4 defines it. */
module Sha256Spec {

  /** One of eight. */
  function Pick(i: nat, a: bv32, b: bv32, c: bv32, d: bv32, e: bv32, f: bv32, g: bv32, h: bv32): bv32 {
    if i == 0 then a else if i == 1 then b else if i == 2 then c else if i == 3 then d
    else if i == 4 then e else if i == 5 then f else if i == 6 then g else h
  }

  /** The constants of section 4.2.2, eight a line. */
  function RoundConstant(t: nat): bv32
    requires t < 64
  {
    var i := t % 8;
    if t < 8 then Pick(i, 0x428a2f98, 0x71374491, 0xb5c0fbcf, 0xe9b5dba5, 0x3956c25b, 0x59f111f1, 0x923f82a4, 0xab1c5ed5) else
    if t < 16 then Pick(i, 0xd807aa98, 0x12835b01, 0x243185be, 0x550c7dc3, 0x72be5d74, 0x80deb1fe, 0x9bdc06a7, 0xc19bf174) else
    if t < 24 then Pick(i, 0xe49b69c1, 0xefbe4786, 0x0fc19dc6, 0x240ca1cc, 0x2de92c6f, 0x4a7484aa, 0x5cb0a9dc, 0x76f988da) else
    if t < 32 then Pick(i, 0x983e5152, 0xa831c66d, 0xb00327c8, 0xbf597fc7, 0xc6e00bf3, 0xd5a79147, 0x06ca6351, 0x14292967) else
    if t < 40 then Pick(i, 0x27b70a85, 0x2e1b2138, 0x4d2c6dfc, 0x53380d13, 0x650a7354, 0x766a0abb, 0x81c2c92e, 0x92722c85) else
    if t < 48 then Pick(i, 0xa2bfe8a1, 0xa81a664b, 0xc24b8b70, 0xc76c51a3, 0xd192e819, 0xd6990624, 0xf40e3585, 0x106aa070) else
    if t < 56 then Pick(i, 0x19a4c116, 0x1e376c08, 0x2748774c, 0x34b0bcb5, 0x391c0cb3, 0x4ed8aa4a, 0x5b9cca4f, 0x682e6ff3) else
    Pick(i, 0x748f82ee, 0x78a5636f, 0x84c87814, 0x8cc70208, 0x90befffa, 0xa4506ceb, 0xbef9a3f7, 0xc67178f2)
  }

  // ---------- Words (section 4.1.2) ----------

  function Plus(x: bv32, y: bv32): bv32 {
    x + y
  }

  function RotR(x: bv32, n: bv6): bv32
    requires n < 32
  {
    (x >> n) | (x << (32 - n))
  }

  function Ch(x: bv32, y: bv32, z: bv32): bv32 {
    (x & y) ^ (!x & z)
  }

  function Maj(x: bv32, y: bv32, z: bv32): bv32 {
    (x & y) ^ (x & z) ^ (y & z)
  }

  function BigSigma0(x: bv32): bv32 {
    RotR(x, 2) ^ RotR(x, 13) ^ RotR(x, 22)
  }

  function BigSigma1(x: bv32): bv32 {
    RotR(x, 6) ^ RotR(x, 11) ^ RotR(x, 25)
  }

  function Sigma0(x: bv32): bv32 {
    RotR(x, 7) ^ RotR(x, 18) ^ (x >> 3)
  }

  function Sigma1(x: bv32): bv32 {
    RotR(x, 17) ^ RotR(x, 19) ^ (x >> 10)
  }

  // ---------- Bytes of a word, most significant first ----------

  function WordOf(b0: bv8, b1: bv8, b2: bv8, b3: bv8): bv32 {
    (b0 as bv32 << 24) | (b1 as bv32 << 16) | (b2 as bv32 << 8) | b3 as bv32
  }

  function BytesOf(w: bv32): (b: seq<bv8>)
    ensures |b| == 4
  {
    [(w >> 24) as bv8, ((w >> 16) & 0xff) as bv8, ((w >> 8) & 0xff) as bv8, (w & 0xff) as bv8]
  }

  // ---------- One block (section 6.2.2) ----------

  datatype Regs = Regs(a: bv32, b: bv32, c: bv32, d: bv32, e: bv32, f: bv32, g: bv32, h: bv32)

  type BlockWords = s: seq<bv32> | |s| == 16 witness seq(16, _ => 0)

  /** Word t of the message schedule. */
  function W(block: BlockWords, t: nat): bv32 {
    if t < 16 then block[t] else
      Plus(W(block, t - 16), Plus(Plus(Sigma1(W(block, t - 2)), W(block, t - 7)), Sigma0(W(block, t - 15))))
  }

  function Round(r: Regs, k: bv32, w: bv32): Regs {
    var t1 := Plus(r.h, Plus(Plus(Plus(w, k), BigSigma1(r.e)), Ch(r.e, r.f, r.g)));
    var t2 := Plus(BigSigma0(r.a), Maj(r.a, r.b, r.c));
    Regs(Plus(t1, t2), r.a, r.b, r.c, Plus(r.d, t1), r.e, r.f, r.g)
  }

  /** The working variables after t rounds. */
  function Rounds(block: BlockWords, r: Regs, t: nat): Regs
    requires t <= 64
  {
    if t == 0 then r else Round(Rounds(block, r, t - 1), RoundConstant(t - 1), W(block, t - 1))
  }

  function Compress(r: Regs, block: BlockWords): Regs {
    var v := Rounds(block, r, 64);
    Regs(Plus(r.a, v.a), Plus(r.b, v.b), Plus(r.c, v.c), Plus(r.d, v.d),
         Plus(r.e, v.e), Plus(r.f, v.f), Plus(r.g, v.g), Plus(r.h, v.h))
  }

  // ---------- Whole messages (sections 5.1.1, 5.2.1, 5.3.3 and 6.2) ----------

  const INITIAL := Regs(0x6a09e667, 0xbb67ae85, 0x3c6ef372, 0xa54ff53a, 0x510e527f, 0x9b05688c, 0x1f83d9ab, 0x5be0cd19)

  function WordAt(m: seq<bv8>, i: nat): bv32
    requires 4 * i + 4 <= |m|
  {
    WordOf(m[4 * i], m[4 * i + 1], m[4 * i + 2], m[4 * i + 3])
  }

  function Parse(m: seq<bv8>): BlockWords
    requires |m| == 64
  {
    seq(16, i requires 0 <= i < 16 => WordAt(m, i))
  }

  function HashBlocks(r: Regs, m: seq<bv8>): Regs
    requires |m| % 64 == 0
    decreases |m|
  {
    if m == [] then r else
      assert |m| >= 64;
      HashBlocks(Compress(r, Parse(m[..64])), m[64..])
  }

  type Word32 = n: nat | n < 0x1_0000_0000

  /** The length in bits modulo 2 to the power 64, as two words. */
  function LengthHigh(n: nat): Word32 {
    8 * n / 0x1_0000_0000 % 0x1_0000_0000
  }

  function LengthLow(n: nat): Word32 {
    8 * n % 0x1_0000_0000
  }

  function ToWord(n: Word32): bv32 {
    n as bv32
  }

  function ZeroCount(n: nat): (z: nat)
    ensures z < 64 && (n + 1 + z) % 64 == 56
  {
    if n % 64 < 56 then 55 - n % 64 else 119 - n % 64
  }

  function Zeros(n: nat): (z: seq<bv8>)
    ensures |z| == n
  {
    seq(n, _ => 0)
  }

  /** What is appended to a message of n bytes: the bit 1, zeros up to 56 modulo 64, the length. */
  function Padding(n: nat): (p: seq<bv8>) {
    [0x80] + Zeros(ZeroCount(n)) + BytesOf(ToWord(LengthHigh(n))) + BytesOf(ToWord(LengthLow(n)))
  }

  lemma PaddingLength(n: nat)
    ensures |Padding(n)| == 9 + ZeroCount(n) && (n + |Padding(n)|) % 64 == 0
  {
    hide ToWord, BytesOf, LengthHigh, LengthLow, ZeroCount;
    assert (n + 1 + ZeroCount(n) + 8) % 64 == 0;
  }

  /** One bit, zeros, and the two words of the length in the last eight bytes. */
  lemma PaddingBytes(n: nat)
    ensures var p := Padding(n);
            && |p| >= 9 && p[0] == 0x80 && (forall k | 0 < k < |p| - 8 :: p[k] == 0)
            && p[|p| - 8..|p| - 4] == BytesOf(ToWord(LengthHigh(n))) && p[|p| - 4..] == BytesOf(ToWord(LengthLow(n)))
  {
    hide BytesOf, ToWord, LengthHigh, LengthLow, ZeroCount;
  }

  function Reg(r: Regs, k: nat): bv32
    requires k < 8
  {
    match k
    case 0 => r.a
    case 1 => r.b
    case 2 => r.c
    case 3 => r.d
    case 4 => r.e
    case 5 => r.f
    case 6 => r.g
    case _ => r.h
  }

  /** The eight words of the hash value, byte by byte. */
  function DigestBytes(r: Regs): (d: seq<bv8>)
    ensures |d| == 32
  {
    seq(32, i requires 0 <= i < 32 => BytesOf(Reg(r, i / 4))[i % 4])
  }

  function Sha256(m: seq<bv8>): seq<bv8> {
    PaddingLength(|m|);
    DigestBytes(HashBlocks(INITIAL, m + Padding(|m|)))
  }

  // ---------- Lemmas ----------

  lemma {:induction false} HashBlocksSplit(r: Regs, m: seq<bv8>, n: seq<bv8>)
    requires |m| % 64 == 0 && |n| % 64 == 0
    ensures HashBlocks(r, m + n) == HashBlocks(HashBlocks(r, m), n)
    decreases |m|
  {
    hide Compress, Parse;
    if m == [] {
      assert m + n == n;
    } else {
      assert |m| >= 64;
      assert (m + n)[..64] == m[..64] && (m + n)[64..] == m[64..] + n;
      HashBlocksSplit(Compress(r, Parse(m[..64])), m[64..], n);
    }
  }

  lemma HashOneBlock(r: Regs, m: seq<bv8>)
    requires |m| == 64
    ensures HashBlocks(r, m) == Compress(r, Parse(m))
  {
    hide Compress, Parse;
    assert m[..64] == m && m[64..] == [];
  }

  /** Below 2 to the power 61 bytes the length field is the length in bits. */
  lemma LengthExact(n: nat)
    requires n < 0x2000_0000_0000_0000
    ensures LengthHigh(n) * 0x1_0000_0000 + LengthLow(n) == 8 * n
  {}
}
