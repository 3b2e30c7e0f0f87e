/** The CBC and CTR modes of NIST SP 800-38A for any block cipher with 16-byte blocks. */
module BlockModes {
  import opened ByteXor

  type Block = s: seq<bv8> | |s| == 16 witness seq(16, _ => 0)

  type BlockCipher = Block -> Block

  function XorBytes(a: seq<bv8>, b: seq<bv8>): (r: seq<bv8>)
    requires |a| == |b|
    ensures |r| == |a|
  {
    seq(|a|, i requires 0 <= i < |a| => Add(a[i], b[i]))
  }

  lemma XorBytesTwice(a: seq<bv8>, b: seq<bv8>)
    requires |a| == |b|
    ensures XorBytes(XorBytes(a, b), b) == a
  {
    hide Add;
    forall i | 0 <= i < |a|
      ensures Add(Add(a[i], b[i]), b[i]) == a[i]
    {
      AddTwice(a[i], b[i]);
    }
  }

  // ---------- CBC ----------

  function CbcEncrypt(enc: BlockCipher, iv: Block, p: seq<bv8>): (c: seq<bv8>)
    requires |p| % 16 == 0
    ensures |c| == |p|
    decreases |p|
  {
    if p == [] then [] else
      assert |p| >= 16;
      var c := enc(XorBytes(p[..16], iv));
      c + CbcEncrypt(enc, c, p[16..])
  }

  function CbcDecrypt(dec: BlockCipher, iv: Block, c: seq<bv8>): (p: seq<bv8>)
    requires |c| % 16 == 0
    ensures |p| == |c|
    decreases |c|
  {
    if c == [] then [] else
      assert |c| >= 16;
      XorBytes(dec(c[..16]), iv) + CbcDecrypt(dec, c[..16], c[16..])
  }

  /** The chaining block left behind by the ciphertext c. */
  function NextIv(iv: Block, c: seq<bv8>): Block
    requires |c| % 16 == 0
  {
    if c == [] then iv else c[|c| - 16..]
  }

  lemma {:induction false} CbcInverse(enc: BlockCipher, dec: BlockCipher, iv: Block, p: seq<bv8>)
    requires |p| % 16 == 0
    requires forall b :: dec(enc(b)) == b
    ensures CbcDecrypt(dec, iv, CbcEncrypt(enc, iv, p)) == p
    decreases |p|
  {
    hide XorBytes;
    if p != [] {
      assert |p| >= 16;
      var c := enc(XorBytes(p[..16], iv));
      XorBytesTwice(p[..16], iv);
      CbcInverse(enc, dec, c, p[16..]);
      assert CbcEncrypt(enc, iv, p)[..16] == c && CbcEncrypt(enc, iv, p)[16..] == CbcEncrypt(enc, c, p[16..]);
    }
  }

  /** Encrypting in two calls, the second with the block the first left behind, is encrypting in one. */
  lemma {:induction false} CbcEncryptSplit(enc: BlockCipher, iv: Block, p: seq<bv8>, q: seq<bv8>)
    requires |p| % 16 == 0 && |q| % 16 == 0
    ensures var c := CbcEncrypt(enc, iv, p);
            CbcEncrypt(enc, iv, p + q) == c + CbcEncrypt(enc, NextIv(iv, c), q)
    decreases |p|
  {
    hide XorBytes;
    if p == [] {
      assert p + q == q;
    } else {
      assert |p| >= 16;
      var c := enc(XorBytes(p[..16], iv));
      var rest := CbcEncrypt(enc, c, p[16..]);
      assert (p + q)[..16] == p[..16] && (p + q)[16..] == p[16..] + q;
      CbcEncryptSplit(enc, c, p[16..], q);
      NextIvSplit(iv, c, rest);
      assert NextIv(iv, c) == c;
    }
  }

  lemma NextIvSplit(iv: Block, c: seq<bv8>, d: seq<bv8>)
    requires |c| % 16 == 0 && |d| % 16 == 0
    ensures NextIv(iv, c + d) == NextIv(NextIv(iv, c), d)
  {
    assert c == [] ==> c + d == d;
    assert d == [] ==> c + d == c;
    if d != [] {
      assert |d| >= 16;
    }
  }

  lemma CbcDecryptFirst(dec: BlockCipher, iv: Block, c: seq<bv8>, d: seq<bv8>)
    requires |c| % 16 == 0 && |d| % 16 == 0 && c != []
    ensures |c| >= 16 && (c + d)[16..] == c[16..] + d
    ensures CbcDecrypt(dec, iv, c + d) == XorBytes(dec(c[..16]), iv) + CbcDecrypt(dec, c[..16], c[16..] + d)
    ensures CbcDecrypt(dec, iv, c) == XorBytes(dec(c[..16]), iv) + CbcDecrypt(dec, c[..16], c[16..])
    ensures NextIv(iv, c) == NextIv(c[..16], c[16..])
  {
    hide XorBytes;
    assert |c| >= 16;
    assert (c + d)[..16] == c[..16] && (c + d)[16..] == c[16..] + d;
    assert c == c[..16] + c[16..];
    NextIvSplit(iv, c[..16], c[16..]);
  }

  lemma {:induction false} CbcDecryptSplit(dec: BlockCipher, iv: Block, c: seq<bv8>, d: seq<bv8>)
    requires |c| % 16 == 0 && |d| % 16 == 0
    ensures CbcDecrypt(dec, iv, c + d) == CbcDecrypt(dec, iv, c) + CbcDecrypt(dec, NextIv(iv, c), d)
    decreases |c|
  {
    hide XorBytes, CbcDecrypt, NextIv;
    if c == [] {
      CbcDecryptNothing(dec, iv);
      assert c + d == d;
    } else {
      CbcDecryptFirst(dec, iv, c, d);
      CbcDecryptSplit(dec, c[..16], c[16..], d);
      ConcatThree(XorBytes(dec(c[..16]), iv), CbcDecrypt(dec, c[..16], c[16..]), CbcDecrypt(dec, NextIv(iv, c), d));
    }
  }

  lemma CbcDecryptNothing(dec: BlockCipher, iv: Block)
    ensures CbcDecrypt(dec, iv, []) == [] && NextIv(iv, []) == iv
  {
  }

  lemma ConcatThree(a: seq<bv8>, b: seq<bv8>, c: seq<bv8>)
    ensures a + (b + c) == a + b + c
  {
  }

  // ---------- CBC in pieces ----------

  predicate WholeBlocks(ps: seq<seq<bv8>>) {
    forall i | 0 <= i < |ps| :: |ps[i]| % 16 == 0
  }

  function Joined(ps: seq<seq<bv8>>): (s: seq<bv8>)
    ensures WholeBlocks(ps) ==> |s| % 16 == 0
  {
    if ps == [] then [] else
      var front := ps[..|ps| - 1];
      assert WholeBlocks(ps) ==> WholeBlocks(front) && |ps[|ps| - 1]| % 16 == 0;
      Joined(front) + ps[|ps| - 1]
  }

  /** One call after the other on one context, each with the block the calls before left behind. */
  function CbcEncryptCalls(enc: BlockCipher, iv: Block, ps: seq<seq<bv8>>): (cs: seq<seq<bv8>>)
    requires WholeBlocks(ps)
    ensures |cs| == |ps| && WholeBlocks(cs)
    ensures forall i | 0 <= i < |ps| :: |cs[i]| == |ps[i]|
  {
    if ps == [] then [] else
      var n := |ps| - 1;
      var front := CbcEncryptCalls(enc, iv, ps[..n]);
      front + [CbcEncrypt(enc, NextIv(iv, Joined(front)), ps[n])]
  }

  function CbcDecryptCalls(dec: BlockCipher, iv: Block, cs: seq<seq<bv8>>): (ps: seq<seq<bv8>>)
    requires WholeBlocks(cs)
    ensures |ps| == |cs| && forall i | 0 <= i < |cs| :: |ps[i]| == |cs[i]|
  {
    if cs == [] then [] else
      var n := |cs| - 1;
      CbcDecryptCalls(dec, iv, cs[..n]) + [CbcDecrypt(dec, NextIv(iv, Joined(cs[..n])), cs[n])]
  }

  lemma JoinedLast(ps: seq<seq<bv8>>, p: seq<bv8>)
    ensures Joined(ps + [p]) == Joined(ps) + p
  {
    assert (ps + [p])[..|ps|] == ps;
  }

  /** However a message of whole blocks is cut into calls, the bytes are those of a single call. */
  lemma {:induction false} CbcEncryptPieces(enc: BlockCipher, iv: Block, ps: seq<seq<bv8>>)
    requires WholeBlocks(ps)
    ensures Joined(CbcEncryptCalls(enc, iv, ps)) == CbcEncrypt(enc, iv, Joined(ps))
  {
    hide CbcEncrypt, NextIv;
    if ps == [] {
      CbcNothing(enc, iv);
    } else {
      var n := |ps| - 1;
      var front := CbcEncryptCalls(enc, iv, ps[..n]);
      CbcEncryptPieces(enc, iv, ps[..n]);
      JoinedLast(front, CbcEncrypt(enc, NextIv(iv, Joined(front)), ps[n]));
      CbcEncryptSplit(enc, iv, Joined(ps[..n]), ps[n]);
    }
  }

  lemma {:induction false} CbcDecryptPieces(dec: BlockCipher, iv: Block, cs: seq<seq<bv8>>)
    requires WholeBlocks(cs)
    ensures Joined(CbcDecryptCalls(dec, iv, cs)) == CbcDecrypt(dec, iv, Joined(cs))
  {
    hide CbcDecrypt, NextIv;
    if cs == [] {
      CbcNothing(dec, iv);
    } else {
      var n := |cs| - 1;
      CbcDecryptPieces(dec, iv, cs[..n]);
      JoinedLast(CbcDecryptCalls(dec, iv, cs[..n]), CbcDecrypt(dec, NextIv(iv, Joined(cs[..n])), cs[n]));
      CbcDecryptSplit(dec, iv, Joined(cs[..n]), cs[n]);
    }
  }

  lemma CbcNothing(f: BlockCipher, iv: Block)
    ensures CbcEncrypt(f, iv, []) == [] && CbcDecrypt(f, iv, []) == []
  {
  }

  // ---------- CTR ----------

  /** The number a big-endian byte string stands for. */
  function BeValue(s: seq<bv8>): nat {
    if s == [] then 0 else 256 * BeValue(s[..|s| - 1]) + s[|s| - 1] as nat
  }

  function Pow256(n: nat): (r: nat)
    ensures r > 0
  {
    if n == 0 then 1 else 256 * Pow256(n - 1)
  }

  /** Adding one to a big-endian byte string, dropping the carry out of the first byte. */
  function Inc(s: seq<bv8>): (r: seq<bv8>)
    ensures |r| == |s|
  {
    if s == [] then [] else
      var n := |s| - 1;
      if s[n] == 255 then Inc(s[..n]) + [0] else s[..n] + [s[n] + 1]
  }

  function IncBy(s: seq<bv8>, k: nat): (r: seq<bv8>)
    ensures |r| == |s|
  {
    if k == 0 then s else Inc(IncBy(s, k - 1))
  }

  /** Byte i of the key stream: counter blocks are encrypted one after the other. */
  function KeyStream(enc: BlockCipher, iv: Block, i: nat): bv8 {
    enc(IncBy(iv, i / 16))[i % 16]
  }

  function CtrCrypt(enc: BlockCipher, iv: Block, data: seq<bv8>): (r: seq<bv8>)
    ensures |r| == |data|
  {
    seq(|data|, i requires 0 <= i < |data| => Add(data[i], KeyStream(enc, iv, i)))
  }

  lemma {:induction false} BeValueBound(s: seq<bv8>)
    ensures BeValue(s) < Pow256(|s|)
  {
    if s != [] {
      BeValueBound(s[..|s| - 1]);
    }
  }

  lemma LastDigit(x: nat, y: nat, b: bv8, c: bv8)
    requires 256 * x + b as nat == 256 * y + c as nat
    ensures x == y && b == c
  {
    var i, j := b as nat, c as nat;
    assert i == j && x == y;
  }

  /** A byte string of known length is determined by its value. */
  lemma {:induction false} BeValueInjective(s: seq<bv8>, t: seq<bv8>)
    requires |s| == |t| && BeValue(s) == BeValue(t)
    ensures s == t
  {
    if s != [] {
      var n := |s| - 1;
      LastDigit(BeValue(s[..n]), BeValue(t[..n]), s[n], t[n]);
      BeValueInjective(s[..n], t[..n]);
      assert s == s[..n] + [s[n]] && t == t[..n] + [t[n]];
    }
  }

  lemma BeValueSnoc(s: seq<bv8>, b: bv8)
    ensures BeValue(s + [b]) == 256 * BeValue(s) + b as nat
  {
    assert (s + [b])[..|s|] == s;
  }

  lemma {:induction false} IncValue(s: seq<bv8>)
    ensures BeValue(Inc(s)) == (if BeValue(s) + 1 == Pow256(|s|) then 0 else BeValue(s) + 1)
  {
    if s != [] {
      var n := |s| - 1;
      BeValueBound(s[..n]);
      if s[n] == 255 {
        IncValue(s[..n]);
        BeValueSnoc(Inc(s[..n]), 0);
      } else {
        NextByte(s[n]);
        BeValueSnoc(s[..n], s[n] + 1);
      }
    }
  }

  lemma Pow256Of16()
    ensures Pow256(16) == 0x1_0000_0000_0000_0000_0000_0000_0000_0000
  {
    assert Pow256(4) == 0x1_0000_0000;
    assert Pow256(8) == 0x1_0000_0000_0000_0000;
    assert Pow256(12) == 0x1_0000_0000_0000_0000_0000_0000;
  }

  lemma ModNext(a: nat)
    ensures (a + 1) % 0x1_0000_0000_0000_0000_0000_0000_0000_0000 ==
            var r := a % 0x1_0000_0000_0000_0000_0000_0000_0000_0000;
            if r + 1 == 0x1_0000_0000_0000_0000_0000_0000_0000_0000 then 0 else r + 1
  {}

  /** Counting k blocks adds k modulo 2 to the power 128. */
  lemma {:induction false} IncByValue(iv: Block, k: nat)
    ensures BeValue(IncBy(iv, k)) == (BeValue(iv) + k) % 0x1_0000_0000_0000_0000_0000_0000_0000_0000
  {
    hide BeValue, Inc, Pow256;
    Pow256Of16();
    BeValueBound(iv);
    if k > 0 {
      IncByValue(iv, k - 1);
      IncValue(IncBy(iv, k - 1));
      ModNext(BeValue(iv) + k - 1);
    }
  }

  lemma {:induction false} IncByAdd(s: seq<bv8>, j: nat, k: nat)
    ensures IncBy(s, j + k) == IncBy(IncBy(s, j), k)
  {
    hide Inc;
    if k > 0 {
      IncByAdd(s, j, k - 1);
    }
  }

  /** The mode is its own inverse, for data of every length. */
  lemma CtrTwice(enc: BlockCipher, iv: Block, data: seq<bv8>)
    ensures CtrCrypt(enc, iv, CtrCrypt(enc, iv, data)) == data
  {
    hide Add, KeyStream;
    forall i | 0 <= i < |data|
      ensures CtrCrypt(enc, iv, CtrCrypt(enc, iv, data))[i] == data[i]
    {
      AddTwice(data[i], KeyStream(enc, iv, i));
    }
  }

  lemma KeyStreamSplit(enc: BlockCipher, iv: Block, m: nat, i: nat)
    ensures KeyStream(enc, iv, 16 * m + i) == KeyStream(enc, IncBy(iv, m), i)
  {
    hide IncBy;
    assert (16 * m + i) / 16 == m + i / 16 && (16 * m + i) % 16 == i % 16;
    IncByAdd(iv, m, i / 16);
  }

  /** Two calls give what one call gives when the first ends on a block boundary. */
  lemma CtrSplit(enc: BlockCipher, iv: Block, p: seq<bv8>, q: seq<bv8>)
    requires |p| % 16 == 0
    ensures CtrCrypt(enc, iv, p + q) == CtrCrypt(enc, iv, p) + CtrCrypt(enc, IncBy(iv, |p| / 16), q)
  {
    hide Add, IncBy, KeyStream;
    var m := |p| / 16;
    var whole, parts := CtrCrypt(enc, iv, p + q), CtrCrypt(enc, iv, p) + CtrCrypt(enc, IncBy(iv, m), q);
    forall i | 0 <= i < |whole|
      ensures whole[i] == parts[i]
    {
      if i >= |p| {
        KeyStreamSplit(enc, iv, m, i - |p|);
      }
    }
  }

  // ---------- Both modes, one byte at a time ----------

  /** The block that block j is combined with: the initial vector or the block of ciphertext in front. */
  function Previous(iv: Block, c: seq<bv8>, j: nat): Block
    requires 16 * j <= |c|
  {
    if j == 0 then iv else c[16 * (j - 1)..16 * j]
  }

  /** Byte by byte, x is y xored with z. */
  predicate IsXor(x: Block, y: Block, z: Block) {
    forall k | 0 <= k < 16 :: x[k] == y[k] ^ z[k]
  }

  lemma XorIsXor(x: Block, y: Block, z: Block)
    requires IsXor(x, y, z)
    ensures XorBytes(y, z) == x
  {
  }

  lemma XorBytesIsXor(y: Block, z: Block)
    ensures |XorBytes(y, z)| == 16 && IsXor(XorBytes(y, z), y, z)
  {
  }

  /** What stands in front of block j, the block, and what follows it. */
  lemma AtBlock(p: seq<bv8>, j: nat)
    requires |p| % 16 == 0 && 16 * j + 16 <= |p|
    ensures var b := p[16 * j..16 * j + 16];
            p == p[..16 * j] + (b + p[16 * j + 16..]) && |p[16 * j + 16..]| % 16 == 0 && |b| == 16
            && (b + p[16 * j + 16..])[..16] == b && (b + p[16 * j + 16..])[16..] == p[16 * j + 16..]
  {
  }

  lemma PreviousIsNext(iv: Block, c: seq<bv8>, j: nat)
    requires 16 * j <= |c|
    ensures NextIv(iv, c[..16 * j]) == Previous(iv, c, j)
  {
  }

  lemma CbcFirst(enc: BlockCipher, iv: Block, b: Block, rest: seq<bv8>)
    requires |rest| % 16 == 0
    ensures CbcEncrypt(enc, iv, b + rest)[..16] == enc(XorBytes(b, iv))
    ensures CbcDecrypt(enc, iv, b + rest)[..16] == XorBytes(enc(b), iv)
  {
    hide XorBytes;
    assert (b + rest)[..16] == b;
  }

  /** Section 6.2 of SP 800-38A: block j of the ciphertext is the cipher of block j of the plaintext, xored with the
      block in front. */
  lemma CbcEncryptedBlock(enc: BlockCipher, iv: Block, p: seq<bv8>, j: nat, x: Block)
    requires |p| % 16 == 0 && 16 * j + 16 <= |p|
    requires IsXor(x, p[16 * j..16 * j + 16], Previous(iv, CbcEncrypt(enc, iv, p), j))
    ensures CbcEncrypt(enc, iv, p)[16 * j..16 * j + 16] == enc(x)
  {
    hide CbcEncrypt, XorBytes, IsXor, NextIv, Previous;
    var c, front, b, rest := CbcEncrypt(enc, iv, p), p[..16 * j], p[16 * j..16 * j + 16], p[16 * j + 16..];
    AtBlock(p, j);
    CbcEncryptSplit(enc, iv, front, b + rest);
    var done := CbcEncrypt(enc, iv, front);
    assert c[..16 * j] == done;
    PreviousIsNext(iv, c, j);
    CbcFirst(enc, NextIv(iv, done), b, rest);
    XorIsXor(x, b, Previous(iv, c, j));
    SliceBehind(done, CbcEncrypt(enc, NextIv(iv, done), b + rest));
  }

  lemma SliceBehind(a: seq<bv8>, b: seq<bv8>)
    requires |b| >= 16
    ensures (a + b)[|a|..|a| + 16] == b[..16]
  {
  }

  /** And block j of the plaintext is the inverse cipher of block j of the ciphertext, xored with the block in front. */
  lemma CbcDecryptedBlock(dec: BlockCipher, iv: Block, c: seq<bv8>, j: nat)
    requires |c| % 16 == 0 && 16 * j + 16 <= |c|
    ensures IsXor(CbcDecrypt(dec, iv, c)[16 * j..16 * j + 16], dec(c[16 * j..16 * j + 16]), Previous(iv, c, j))
  {
    hide CbcDecrypt, XorBytes, IsXor, NextIv, Previous;
    var front, b, rest := c[..16 * j], c[16 * j..16 * j + 16], c[16 * j + 16..];
    AtBlock(c, j);
    CbcDecryptSplit(dec, iv, front, b + rest);
    PreviousIsNext(iv, c, j);
    CbcFirst(dec, NextIv(iv, front), b, rest);
    XorBytesIsXor(dec(b), Previous(iv, c, j));
    SliceBehind(CbcDecrypt(dec, iv, front), CbcDecrypt(dec, NextIv(iv, front), b + rest));
  }

  /** Four bytes as a number, most significant first. */
  function Quad(b: Block, i: nat): nat
    requires i + 4 <= 16
  {
    0x1000000 * b[i] as nat + 0x10000 * b[i + 1] as nat + 0x100 * b[i + 2] as nat + b[i + 3] as nat
  }

  /** The number that a counter block writes, most significant byte first. */
  function Number(b: Block): nat {
    0x1_0000_0000 * (0x1_0000_0000 * (0x1_0000_0000 * Quad(b, 0) + Quad(b, 4)) + Quad(b, 8)) + Quad(b, 12)
  }

  lemma BeValueNext(b: Block, n: nat)
    requires n < 16
    ensures BeValue(b[..n + 1]) == 0x100 * BeValue(b[..n]) + b[n] as nat
  {
    assert b[..n + 1][..n] == b[..n];
  }

  lemma BeValueQuad(b: Block, n: nat)
    requires n + 4 <= 16
    ensures BeValue(b[..n + 4]) == 0x1_0000_0000 * BeValue(b[..n]) + Quad(b, n)
  {
    hide BeValue;
    BeValueNext(b, n);
    BeValueNext(b, n + 1);
    BeValueNext(b, n + 2);
    BeValueNext(b, n + 3);
  }

  lemma NumberIsBeValue(b: Block)
    ensures Number(b) == BeValue(b)
  {
    hide BeValue, Quad;
    NoBytes();
    assert b[..0] == [] && b[..16] == b;
    BeValueQuad(b, 0);
    BeValueQuad(b, 4);
    BeValueQuad(b, 8);
    BeValueQuad(b, 12);
  }

  lemma NoBytes()
    ensures BeValue([]) == 0
  {
  }

  /** Section 6.5: byte i is xored with byte i mod 16 of the cipher of the counter block b, whose number is that of
      the vector and i / 16 more, modulo 2 to the power 128. */
  lemma CtrByte(enc: BlockCipher, iv: Block, data: seq<bv8>, i: nat, b: Block)
    requires i < |data|
    requires Number(b) == (Number(iv) + i / 16) % 0x1_00000000_00000000_00000000_00000000
    ensures CtrCrypt(enc, iv, data)[i] == data[i] ^ enc(b)[i % 16]
  {
    hide Number, BeValue, IncBy;
    NumberIsBeValue(iv);
    NumberIsBeValue(b);
    IncByValue(iv, i / 16);
    BeValueInjective(b, IncBy(iv, i / 16));
  }
}
