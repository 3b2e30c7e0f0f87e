/** The streaming interface of sha256.cpp. The context buffers up to 63 bytes in sixteen 32-bit words,
    addressed byte by byte in the order of a little-endian machine. */
module Sha256 {
  import opened Sha256Spec
  import opened Sha256Block

  // ---------- Memory ----------

  function LeByte(w: bv32, n: nat): bv8
    requires n < 4
  {
    match n
    case 0 => (w & 0xff) as bv8
    case 1 => ((w >> 8) & 0xff) as bv8
    case 2 => ((w >> 16) & 0xff) as bv8
    case _ => (w >> 24) as bv8
  }

  /** Storing a byte in a word leaves the other three. */
  function PutLeByte(w: bv32, n: nat, x: bv8): bv32
    requires n < 4
  {
    WordOf(if n == 3 then x else LeByte(w, 3), if n == 2 then x else LeByte(w, 2),
           if n == 1 then x else LeByte(w, 1), if n == 0 then x else LeByte(w, 0))
  }

  /** The bytes of the buffer in the order of their addresses. */
  function LeBytes(p: seq<bv32>): (m: seq<bv8>)
    ensures |m| == 4 * |p|
  {
    seq(4 * |p|, k requires 0 <= k < 4 * |p| => LeByte(p[k / 4], k % 4))
  }

  /** _bswapw on one word. */
  function Swap(w: bv32): bv32 {
    (((w >> 24) | (w << 8)) & 0x00ff00ff) | (((w >> 8) | (w << 24)) & 0xff00ff00)
  }

  lemma LeByteOfWord(b3: bv8, b2: bv8, b1: bv8, b0: bv8)
    ensures LeByte(WordOf(b3, b2, b1, b0), 0) == b0 && LeByte(WordOf(b3, b2, b1, b0), 1) == b1
    ensures LeByte(WordOf(b3, b2, b1, b0), 2) == b2 && LeByte(WordOf(b3, b2, b1, b0), 3) == b3
  {}

  lemma PutGet(w: bv32, n: nat, x: bv8)
    requires n < 4
    ensures forall m | 0 <= m < 4 :: LeByte(PutLeByte(w, n, x), m) == if m == n then x else LeByte(w, m)
  {
    hide LeByte, WordOf;
    LeByteOfWord(if n == 3 then x else LeByte(w, 3), if n == 2 then x else LeByte(w, 2),
                 if n == 1 then x else LeByte(w, 1), if n == 0 then x else LeByte(w, 0));
  }

  lemma SwapIsBigEndian(w: bv32)
    ensures Swap(w) == WordOf(LeByte(w, 0), LeByte(w, 1), LeByte(w, 2), LeByte(w, 3))
  {}

  lemma LeBytesAt(p: seq<bv32>, k: nat)
    requires k < |p|
    ensures LeBytes(p)[4 * k] == LeByte(p[k], 0) && LeBytes(p)[4 * k + 1] == LeByte(p[k], 1)
    ensures LeBytes(p)[4 * k + 2] == LeByte(p[k], 2) && LeBytes(p)[4 * k + 3] == LeByte(p[k], 3)
  {
    hide LeByte;
  }

  /** A swapped word is the big-endian word at its place. */
  lemma SwapParses(p: seq<bv32>, k: nat)
    requires k < |p|
    ensures Swap(p[k]) == WordAt(LeBytes(p), k)
  {
    hide Swap, LeByte, WordOf, LeBytes;
    SwapIsBigEndian(p[k]);
    LeBytesAt(p, k);
  }

  lemma PutByte(p: seq<bv32>, k: nat, x: bv8)
    requires k < 4 * |p|
    ensures LeBytes(p[k / 4 := PutLeByte(p[k / 4], k % 4, x)]) == LeBytes(p)[k := x]
  {
    hide LeByte, PutLeByte;
    PutGet(p[k / 4], k % 4, x);
    var q := p[k / 4 := PutLeByte(p[k / 4], k % 4, x)];
    forall m | 0 <= m < 4 * |p|
      ensures LeBytes(q)[m] == LeBytes(p)[k := x][m]
    {
      if m / 4 == k / 4 && m % 4 != k % 4 {
        assert LeByte(q[m / 4], m % 4) == LeByte(p[m / 4], m % 4);
      }
    }
  }

  // ---------- Padding inside the last word ----------

  /** The word that holds r message bytes: what sha256_done makes of it. */
  function PadWord(w: bv32, r: nat): bv32
    requires r < 4
  {
    match r
    case 0 => (w & (0xffffff80 << 24)) | (0x00000080 << 24)
    case 1 => (w & (0xffffff80 << 16)) | (0x00000080 << 16)
    case 2 => (w & (0xffffff80 << 8)) | (0x00000080 << 8)
    case _ => (w & 0xffffff80) | 0x00000080
  }

  lemma PadWordIs(b0: bv8, b1: bv8, b2: bv8, b3: bv8, w: bv32)
    ensures PadWord(w, 0) == WordOf(0x80, 0, 0, 0)
    ensures PadWord(WordOf(b0, b1, b2, b3), 1) == WordOf(b0, 0x80, 0, 0)
    ensures PadWord(WordOf(b0, b1, b2, b3), 2) == WordOf(b0, b1, 0x80, 0)
    ensures PadWord(WordOf(b0, b1, b2, b3), 3) == WordOf(b0, b1, b2, 0x80)
  {}

  lemma WordOfBytesOf(w: bv32)
    ensures WordOf(BytesOf(w)[0], BytesOf(w)[1], BytesOf(w)[2], BytesOf(w)[3]) == w
  {}

  // ---------- The context ----------

  function RegsOf(h: seq<bv32>): Regs
    requires |h| == 8
  {
    Regs(h[0], h[1], h[2], h[3], h[4], h[5], h[6], h[7])
  }

  function Whole(n: nat): (q: nat)
    ensures q <= n < q + 64 && q % 64 == 0
  {
    n - n % 64
  }

  class Sha256Context {
    const buf: array<bv32>
    const hash: array<bv32>
    var len0: Word32
    var len1: Word32

    /** Everything hashed since init. */
    ghost var Message: seq<bv8>

    ghost predicate Shape() {
      buf.Length == 16 && hash.Length == 8 && buf != hash
    }

    /** The whole blocks of the message are in the hash value, the rest is in the buffer, and the length
        is counted modulo 2 to the power 64. */
    ghost predicate Valid()
      reads this, buf, hash
    {
      && Shape()
      && Absorbed(hash[..], buf[..], Message, Whole(|Message|), |Message| % 64)
      && len0 == |Message| % 0x1_0000_0000
      && len1 == |Message| / 0x1_0000_0000 % 0x1_0000_0000
    }

    /** sha256_init. */
    constructor ()
      ensures Valid() && Message == []
      ensures fresh(buf) && fresh(hash)
    {
      buf := new bv32[16](_ => 0);
      hash := new bv32[8] [0x6a09e667, 0xbb67ae85, 0x3c6ef372, 0xa54ff53a, 0x510e527f, 0x9b05688c, 0x1f83d9ab, 0x5be0cd19];
      len0, len1 := 0, 0;
      Message := [];
      new;
      assert Message[..0] == [] && Message[0..] == [] && LeBytes(buf[..])[..0] == [];
    }

    method StoreByte(n: nat, x: bv8)
      requires Shape() && n < 64
      modifies buf
      ensures LeBytes(buf[..]) == old(LeBytes(buf[..]))[n := x]
    {
      hide LeBytes, PutLeByte;
      ghost var p := buf[..];
      PutByte(p, n, x);
      buf[n / 4] := PutLeByte(buf[n / 4], n % 4, x);
      assert buf[..] == p[n / 4 := PutLeByte(p[n / 4], n % 4, x)];
    }

    /** memcpy of l bytes of dat, from j, to byte i of the buffer. */
    method CopyBytes(i: nat, dat: array<bv8>, j: nat, l: nat)
      requires Shape() && i + l <= 64 && j + l <= dat.Length
      modifies buf
      ensures LeBytes(buf[..]) == old(LeBytes(buf[..]))[..i] + dat[j..j + l] + old(LeBytes(buf[..]))[i + l..]
    {
      hide LeBytes;
      ghost var was := LeBytes(buf[..]);
      for k := 0 to l
        invariant LeBytes(buf[..]) == was[..i] + dat[j..j + k] + was[i + k..]
      {
        StoreByte(i + k, dat[j + k]);
        assert dat[j..j + k + 1] == dat[j..j + k] + [dat[j + k]];
        Overwrite(was, i, dat[j..j + k], dat[j + k]);
      }
    }

    /** _bswapw on the first n words. */
    method SwapWords(n: nat)
      requires Shape() && n <= 16
      modifies buf
      ensures forall k | 0 <= k < n :: buf[k] == WordAt(old(LeBytes(buf[..])), k)
      ensures forall k | n <= k < 16 :: buf[k] == old(buf[k])
    {
      hide Swap, LeBytes, WordAt;
      ghost var was := buf[..];
      var i := n;
      while i > 0
        invariant 0 <= i <= n
        invariant forall k | i <= k < n :: buf[k] == WordAt(LeBytes(was), k)
        invariant forall k | 0 <= k < 16 && !(i <= k < n) :: buf[k] == was[k]
      {
        i := i - 1;
        SwapParses(was, i);
        buf[i] := Swap(buf[i]);
      }
    }

    method AddToHash(b: array<bv32>)
      requires Shape() && b.Length == 8 && b != hash
      modifies hash
      ensures var r, v := old(RegsOf(hash[..])), RegsOf(b[..]);
              RegsOf(hash[..]) == Regs(Plus(r.a, v.a), Plus(r.b, v.b), Plus(r.c, v.c), Plus(r.d, v.d),
                                       Plus(r.e, v.e), Plus(r.f, v.f), Plus(r.g, v.g), Plus(r.h, v.h))
    {
      hide Plus;
      hash[0], hash[1], hash[2], hash[3] := Plus(hash[0], b[0]), Plus(hash[1], b[1]), Plus(hash[2], b[2]), Plus(hash[3], b[3]);
      hash[4], hash[5], hash[6], hash[7] := Plus(hash[4], b[4]), Plus(hash[5], b[5]), Plus(hash[6], b[6]), Plus(hash[7], b[7]);
    }

    /** The loop of _hash, four times sixteen rounds. */
    method AllRounds(b: array<bv32>)
      requires Shape() && b.Length == 8 && b != buf
      modifies b, buf
      ensures View(b[..], 64) == Rounds(old(buf[..]), old(View(b[..], 0)), 64)
    {
      hide Round, Rounds, W, Window, View, RoundConstant;
      ghost var block, r := buf[..], View(b[..], 0);
      WindowStart(block);
      RoundsNext(block, r, 0);
      var j := 0;
      while j < 64
        invariant j % 16 == 0 && j <= 64
        invariant Window(buf[..], block, j) && View(b[..], j) == Rounds(block, r, j)
      {
        for i := 0 to 16
          invariant Window(buf[..], block, i + j) && View(b[..], i + j) == Rounds(block, r, i + j)
        {
          RoundsNext(block, r, i + j);
          Rtrf(b, buf, i, j, block);
        }
        j := j + 16;
      }
    }

    /** _hash: the block in the buffer is compressed into the hash value. */
    method HashBlock()
      requires Shape()
      modifies buf, hash
      ensures RegsOf(hash[..]) == Compress(old(RegsOf(hash[..])), old(buf[..]))
    {
      hide Plus, Rounds, View, RegsOf;
      var b := new bv32[8](_ => 0);
      b[0], b[1], b[2], b[3] := hash[0], hash[1], hash[2], hash[3];
      b[4], b[5], b[6], b[7] := hash[4], hash[5], hash[6], hash[7];
      assert b[..] == hash[..];
      ViewTurn(b[..], 0);
      AllRounds(b);
      ViewTurn(b[..], 64);
      AddToHash(b);
    }

    /** The body of the loop of sha256_hash: the buffer is filled up and hashed. */
    method FillAndHash(i: nat, dat: array<bv8>, j: nat, l: nat, ghost m: seq<bv8>, ghost q: nat)
      requires Shape() && i + l == 64 && j + l <= dat.Length
      requires Absorbed(hash[..], buf[..], m, q, i) && q + 64 <= |m| && dat[j..j + l] == m[q + i..q + 64]
      modifies buf, hash
      ensures Absorbed(hash[..], buf[..], m, q + 64, 0)
    {
      hide LeBytes, Parse, RegsOf, Compress, HashBlocks;
      ghost var block := m[q..q + 64];
      assert block == m[q..q + i] + m[q + i..q + 64];
      CopyBytes(i, dat, j, l);
      assert LeBytes(buf[..]) == block;
      SwapWords(16);
      ParseWords(buf[..], block);
      HashBlock();
      HashNext(m, q);
    }

    /** The loop of sha256_hash; j bytes are used up, and the buffer then holds i bytes. */
    method HashFullBlocks(dat: array<bv8>, sz0: nat, i0: nat, ghost m: seq<bv8>, ghost q0: nat)
      returns (j: nat, i: nat, ghost q: nat)
      requires Shape() && sz0 <= dat.Length
      requires Absorbed(hash[..], buf[..], m, q0, i0) && m[q0 + i0..] == dat[..sz0]
      modifies buf, hash
      ensures j <= sz0 && i + (sz0 - j) < 64
      ensures Absorbed(hash[..], buf[..], m, q, i) && m[q + i..] == dat[j..sz0]
    {
      hide Absorbed;
      AbsorbedBounds(hash[..], buf[..], m, q0, i0);
      var sz: nat, l: nat := sz0, 64 - i0;
      j, i, q := 0, i0, q0;
      while sz >= l
        invariant i < 64 && l == 64 - i && j + sz == sz0 && q + i <= |m| && m[q + i..] == dat[j..sz0]
        invariant Absorbed(hash[..], buf[..], m, q, i)
        decreases sz
      {
        AbsorbedBounds(hash[..], buf[..], m, q, i);
        assert m[q + i..q + 64] == m[q + i..][..l] == dat[j..sz0][..l] == dat[j..j + l];
        assert m[q + 64..] == m[q + i..][l..] == dat[j..sz0][l..] == dat[j + l..sz0];
        FillAndHash(i, dat, j, l, m, q);
        j, sz, l, i, q := j + l, sz - l, 64, 0, q + 64;
      }
      AbsorbedBounds(hash[..], buf[..], m, q, i);
    }

    method CountLength(sz: Word32, ghost n: nat)
      requires len0 == n % 0x1_0000_0000 && len1 == n / 0x1_0000_0000 % 0x1_0000_0000
      modifies this`len0, this`len1
      ensures len0 == (n + sz) % 0x1_0000_0000 && len1 == (n + sz) / 0x1_0000_0000 % 0x1_0000_0000
    {
      LengthCarry(n, sz);
      len0 := (len0 + sz) % 0x1_0000_0000;
      if len0 < sz {
        len1 := (len1 + 1) % 0x1_0000_0000;
      }
    }

    /** sha256_hash: sz bytes of dat are absorbed. */
    method Hash(dat: array<bv8>, sz: Word32)
      requires Valid() && sz <= dat.Length
      modifies this`len0, this`len1, this`Message, buf, hash
      ensures Valid() && Message == old(Message) + dat[..sz]
    {
      hide Absorbed, Whole;
      ghost var n, m := |Message|, Message + dat[..sz];
      WholeIs(n, Whole(n), n % 64);
      LowBits(n);
      AbsorbedPrefix(hash[..], buf[..], Message, dat[..sz], Whole(n), n % 64);
      var i := len0 % 64;
      CountLength(sz, n);
      var j, i', q := HashFullBlocks(dat, sz, i, m, Whole(n));
      ghost var was := buf[..];
      AbsorbedBounds(hash[..], was, m, q, i');
      CopyBytes(i', dat, j, sz - j);
      AbsorbedRest(hash[..], was, buf[..], m, q, i', dat[j..sz]);
      Message := m;
      WholeIs(|m|, q, i' + (sz - j));
    }

    /** The message bytes in the buffer become big-endian words, and the last of them gets the bit 1
        and zeros; s is the padded block. */
    method PadBuffer(i: nat, ghost s: seq<bv8>)
      requires Shape() && i < 64 && |s| == 64
      requires s[..i] == LeBytes(buf[..])[..i] && s[i] == 0x80
      requires forall k | i < k < 4 * (i / 4) + 4 :: s[k] == 0
      modifies buf
      ensures forall k | 0 <= k <= i / 4 :: buf[k] == WordAt(s, k)
    {
      hide LeBytes, WordAt, PadWord;
      ghost var m := LeBytes(buf[..]);
      SwapWords((i + 3) / 4);
      PadWordParses(s, i, m, buf[i / 4]);
      buf[i / 4] := PadWord(buf[i / 4], i % 4);
      forall k | 0 <= k < i / 4
        ensures WordAt(m, k) == WordAt(s, k)
      {
        WordSame(m, s, k, i);
      }
    }

    /** The words from i up to 13 are cleared, the length follows, and the last block is hashed. */
    method FinishBlock(i: nat, ghost s: seq<bv8>)
      requires Shape() && i <= 14 && |s| == 64
      requires forall k | 0 <= k < i :: buf[k] == WordAt(s, k)
      requires forall k | 4 * i <= k < 56 :: s[k] == 0
      requires s[56..60] == BytesOf(ToWord((len1 * 8) % 0x1_0000_0000 + len0 / 0x2000_0000))
      requires s[60..] == BytesOf(ToWord((len0 * 8) % 0x1_0000_0000))
      modifies buf, hash
      ensures RegsOf(hash[..]) == Compress(old(RegsOf(hash[..])), Parse(s))
    {
      hide WordAt, BytesOf, ToWord, Compress, RegsOf, Parse;
      var n := i;
      while n < 14
        invariant n <= 14 && hash[..] == old(hash[..])
        invariant forall k | 0 <= k < n :: buf[k] == WordAt(s, k)
      {
        buf[n] := 0;
        ZeroWord(s, n);
        n := n + 1;
      }
      buf[14] := ToWord((len1 * 8) % 0x1_0000_0000 + len0 / 0x2000_0000);
      buf[15] := ToWord((len0 * 8) % 0x1_0000_0000);
      assert s[56..60] == s[4 * 14..4 * 14 + 4] && s[60..] == s[4 * 15..4 * 15 + 4];
      WordAtBytes(s, 14, buf[14]);
      WordAtBytes(s, 15, buf[15]);
      ParseWords(buf[..], s);
      assert hash[..] == old(hash[..]);
      HashBlock();
    }

    /** The padding fits behind the rest of the message. */
    method FinishInOne(i: nat, ghost s: seq<bv8>)
      requires Shape() && i < 56 && |s| == 64
      requires s[..i] == LeBytes(buf[..])[..i] && s[i] == 0x80 && forall k | i < k < 56 :: s[k] == 0
      requires s[56..60] == BytesOf(ToWord((len1 * 8) % 0x1_0000_0000 + len0 / 0x2000_0000))
      requires s[60..] == BytesOf(ToWord((len0 * 8) % 0x1_0000_0000))
      modifies buf, hash
      ensures RegsOf(hash[..]) == HashBlocks(old(RegsOf(hash[..])), s)
    {
      hide LeBytes, RegsOf, Compress, Parse, WordAt, HashBlocks;
      PadBuffer(i, s);
      HashOneBlock(RegsOf(hash[..]), s);
      FinishBlock(i / 4 + 1, s);
    }

    /** The padding needs a block of its own for the length. */
    method FinishInTwo(i: nat, ghost s: seq<bv8>, ghost s': seq<bv8>)
      requires Shape() && 56 <= i < 64 && |s| == |s'| == 64
      requires s[..i] == LeBytes(buf[..])[..i] && s[i] == 0x80 && forall k | i < k < 64 :: s[k] == 0
      requires forall k | 0 <= k < 56 :: s'[k] == 0
      requires s'[56..60] == BytesOf(ToWord((len1 * 8) % 0x1_0000_0000 + len0 / 0x2000_0000))
      requires s'[60..] == BytesOf(ToWord((len0 * 8) % 0x1_0000_0000))
      modifies buf, hash
      ensures RegsOf(hash[..]) == HashBlocks(old(RegsOf(hash[..])), s + s')
    {
      hide LeBytes, RegsOf, Compress, Parse, WordAt, HashBlocks, BytesOf, ToWord;
      PadBuffer(i, s);
      if i < 60 {
        buf[15] := 0;
        ZeroWord(s, 15);
      }
      ParseWords(buf[..], s);
      HashOneBlock(RegsOf(hash[..]), s);
      HashBlocksSplit(RegsOf(hash[..]), s, s');
      HashBlock();
      HashOneBlock(RegsOf(hash[..]), s');
      FinishBlock(0, s');
    }

    /** The padding and the one or two last blocks; f is the rest of the message with its padding. */
    method FinishMessage(ghost n: nat, ghost f: seq<bv8>)
      requires Shape() && len0 == n % 0x1_0000_0000 && len1 == n / 0x1_0000_0000 % 0x1_0000_0000
      requires |f| % 64 == 0 && f == LeBytes(buf[..])[..n % 64] + Padding(n)
      modifies buf, hash
      ensures RegsOf(hash[..]) == HashBlocks(old(RegsOf(hash[..])), f)
    {
      hide LeBytes, Padding, RegsOf, HashBlocks, BytesOf, ToWord;
      LowBits(n);
      PaddedTail(LeBytes(buf[..])[..n % 64], n);
      LengthWords(n);
      var i := len0 % 64;
      if i < 56 {
        FinishInOne(i, f);
      } else {
        assert f == f[..64] + f[64..];
        assert f[..64][..i] == f[..i];
        assert f[64..][56..60] == f[120..124] && f[64..][60..] == f[124..];
        FinishInTwo(i, f[..64], f[64..]);
      }
    }

    /** The hash value is written out, most significant byte first, and the buffer is cleared. */
    method Output(out: array<bv8>)
      requires Shape() && out.Length >= 32
      modifies buf, out
      ensures out[..32] == DigestBytes(RegsOf(hash[..])) && out[32..] == old(out[32..])
    {
      hide BytesOf, OutByte;
      ghost var h := hash[..];
      for i := 0 to 32
        invariant hash[..] == h
        invariant forall k | 0 <= k < i :: out[k] == BytesOf(h[k / 4])[k % 4]
        invariant forall k | 32 <= k < out.Length :: out[k] == old(out[k])
      {
        buf[i % 16] := 0;
        OutByteIs(hash[i / 4], i % 4);
        out[i] := OutByte(hash[i / 4], i % 4);
      }
      forall k | 0 <= k < 8
        ensures Reg(RegsOf(h), k) == h[k]
      {}
    }

    /** sha256_done: the digest of everything hashed since init. */
    method Done(out: array<bv8>)
      requires Valid() && out.Length >= 32
      modifies buf, hash, out
      ensures out[..32] == Sha256Spec.Sha256(Message) && out[32..] == old(out[32..])
    {
      hide LeBytes, Padding, RegsOf, HashBlocks, Whole;
      ghost var n := |Message|;
      ghost var q := Whole(n);
      WholeIs(n, q, n % 64);
      PaddingLength(n);
      assert Message == Message[..q] + Message[q..];
      ghost var f := Message[q..] + Padding(n);
      assert Message + Padding(n) == Message[..q] + f;
      HashBlocksSplit(INITIAL, Message[..q], f);
      FinishMessage(n, f);
      Output(out);
    }
  }

  /** The bytes of the first n pieces, one behind the other. */
  ghost function Joined(pieces: seq<array<bv8>>, n: nat): seq<bv8>
    requires n <= |pieces|
    reads pieces
  {
    if n == 0 then [] else Joined(pieces, n - 1) + pieces[n - 1][..]
  }

  /** init, one hash call for each piece, done: the digest does not depend on how the message is cut. */
  method DigestOfPieces(pieces: seq<array<bv8>>) returns (out: array<bv8>)
    requires forall k | 0 <= k < |pieces| :: pieces[k].Length < 0x1_0000_0000
    ensures fresh(out) && out[..] == Sha256Spec.Sha256(Joined(pieces, |pieces|))
  {
    hide Absorbed, Whole, Sha256Spec.Sha256;
    var ctx := new Sha256Context();
    var k := 0;
    while k < |pieces|
      invariant 0 <= k <= |pieces|
      invariant ctx.Valid() && fresh(ctx) && fresh(ctx.buf) && fresh(ctx.hash)
      invariant ctx.Message == Joined(pieces, k)
    {
      ghost var dat := pieces[k][..];
      ctx.Hash(pieces[k], pieces[k].Length);
      assert pieces[k][..pieces[k].Length] == dat;
      k := k + 1;
    }
    out := new bv8[32](_ => 0);
    ctx.Done(out);
    assert out[..] == out[..32];
  }

  /** Byte n of the output of a word: the word shifted by eight times 3 - n, cut to eight bits. */
  function OutByte(w: bv32, n: nat): bv8
    requires n < 4
  {
    var shifted := match n case 0 => w >> 24 case 1 => w >> 16 case 2 => w >> 8 case _ => w;
    (shifted & 0xff) as bv8
  }

  lemma OutByteIs(w: bv32, n: nat)
    requires n < 4
    ensures OutByte(w, n) == BytesOf(w)[n]
  {}

  /** The parts of the last one or two blocks. */
  lemma PaddedTail(tail: seq<bv8>, n: nat)
    requires |tail| == n % 64
    ensures var f, i := tail + Padding(n), n % 64;
            && |f| == (if i < 56 then 64 else 128)
            && f[..i] == tail && f[i] == 0x80
            && (forall k | i < k < |f| - 8 :: f[k] == 0)
            && f[|f| - 8..|f| - 4] == BytesOf(ToWord(LengthHigh(n))) && f[|f| - 4..] == BytesOf(ToWord(LengthLow(n)))
  {
    hide BytesOf, ToWord, LengthHigh, LengthLow;
    PaddingLength(n);
  }

  lemma WordSame(m: seq<bv8>, s: seq<bv8>, k: nat, i: nat)
    requires |m| == |s| == 64 && i <= 64 && 4 * k + 4 <= i && s[..i] == m[..i]
    ensures WordAt(m, k) == WordAt(s, k)
  {
    hide WordOf;
    forall n | 0 <= n < i
      ensures m[n] == s[n]
    {
      assert s[..i][n] == m[..i][n];
    }
  }

  lemma ZeroWord(s: seq<bv8>, k: nat)
    requires 4 * k + 4 <= |s| && forall n | 4 * k <= n < 4 * k + 4 :: s[n] == 0
    ensures WordAt(s, k) == 0
  {
    assert WordOf(0, 0, 0, 0) == 0;
  }

  lemma WordAtBytes(s: seq<bv8>, k: nat, w: bv32)
    requires 4 * k + 4 <= |s| && s[4 * k..4 * k + 4] == BytesOf(w)
    ensures WordAt(s, k) == w
  {
    hide WordOf, BytesOf;
    var b := s[4 * k..4 * k + 4];
    assert s[4 * k] == b[0] && s[4 * k + 1] == b[1] && s[4 * k + 2] == b[2] && s[4 * k + 3] == b[3];
    WordOfBytesOf(w);
  }

  lemma PadWordParses(s: seq<bv8>, i: nat, m: seq<bv8>, w: bv32)
    requires |m| == |s| == 64 && i < 64 && s[..i] == m[..i] && s[i] == 0x80
    requires forall k | i < k < 4 * (i / 4) + 4 :: s[k] == 0
    requires i % 4 != 0 ==> w == WordAt(m, i / 4)
    ensures PadWord(w, i % 4) == WordAt(s, i / 4)
  {
    hide WordOf, PadWord;
    var p := 4 * (i / 4);
    forall n | 0 <= n < i
      ensures m[n] == s[n]
    {
      assert s[..i][n] == m[..i][n];
    }
    PadWordIs(m[p], m[p + 1], m[p + 2], m[p + 3], w);
  }

  /** The two length words of the code, from the byte counter modulo 2 to the power 64. */
  lemma LengthWords(n: nat)
    ensures var lo, hi := n % 0x1_0000_0000, n / 0x1_0000_0000 % 0x1_0000_0000;
            (hi * 8) % 0x1_0000_0000 + lo / 0x2000_0000 == LengthHigh(n) && (lo * 8) % 0x1_0000_0000 == LengthLow(n)
  {
    var q, lo := n / 0x1_0000_0000, n % 0x1_0000_0000;
    var top := lo / 0x2000_0000;
    assert 8 * n == 0x1_0000_0000 * (8 * q + top) + (8 * lo - 0x1_0000_0000 * top);
    SplitWord(8 * q + top, 8 * lo - 0x1_0000_0000 * top);
    HighBits(q, top);
  }

  lemma HighBits(q: nat, top: nat)
    requires top < 8
    ensures (q % 0x1_0000_0000 * 8) % 0x1_0000_0000 + top == (8 * q + top) % 0x1_0000_0000
  {
    var a, b := q / 0x1_0000_0000, q % 0x1_0000_0000;
    var e, s := b / 0x2000_0000, b % 0x2000_0000;
    assert 8 * b == 0x1_0000_0000 * e + 8 * s;
    SplitWord(e, 8 * s);
    assert 8 * q + top == 0x1_0000_0000 * (8 * a + e) + (8 * s + top);
    SplitWord(8 * a + e, 8 * s + top);
  }

  /** The blocks of m before q are in the hash value h, and i bytes after q in the buffer p. */
  ghost predicate Absorbed(h: seq<bv32>, p: seq<bv32>, m: seq<bv8>, q: nat, i: nat) {
    && |h| == 8 && |p| == 16 && q + i <= |m| && i < 64 && q % 64 == 0
    && RegsOf(h) == HashBlocks(INITIAL, m[..q])
    && LeBytes(p)[..i] == m[q..q + i]
  }

  lemma AbsorbedPrefix(h: seq<bv32>, p: seq<bv32>, m: seq<bv8>, more: seq<bv8>, q: nat, i: nat)
    requires Absorbed(h, p, m, q, i) && q + i == |m|
    ensures Absorbed(h, p, m + more, q, i) && (m + more)[q + i..] == more
  {
    hide LeBytes, RegsOf, HashBlocks;
    assert (m + more)[..q] == m[..q] && (m + more)[q..q + i] == m[q..q + i];
  }

  lemma AbsorbedRest(h: seq<bv32>, p: seq<bv32>, p': seq<bv32>, m: seq<bv8>, q: nat, i: nat, rest: seq<bv8>)
    requires Absorbed(h, p, m, q, i) && m[q + i..] == rest && i + |rest| < 64
    requires |p'| == 16 && LeBytes(p') == LeBytes(p)[..i] + rest + LeBytes(p)[i + |rest|..]
    ensures Absorbed(h, p', m, q, i + |rest|)
  {
    hide LeBytes, RegsOf, HashBlocks;
    assert m[q..] == m[q..q + i] + m[q + i..];
  }

  lemma AbsorbedBounds(h: seq<bv32>, p: seq<bv32>, m: seq<bv8>, q: nat, i: nat)
    requires Absorbed(h, p, m, q, i)
    ensures q + i <= |m| && i < 64 && q % 64 == 0
  {}

  lemma LowBits(n: nat)
    ensures n % 0x1_0000_0000 % 64 == n % 64
  {
    var q := n / 0x1_0000_0000;
    assert n == 64 * (0x400_0000 * q) + n % 0x1_0000_0000;
  }

  lemma WholeIs(n: nat, q: nat, i: nat)
    ensures Whole(n) + n % 64 == n
    ensures q % 64 == 0 && i < 64 && n == q + i ==> Whole(n) == q && n % 64 == i
  {
    if q % 64 == 0 && i < 64 && n == q + i {
      assert n == 64 * (q / 64) + i;
    }
  }

  lemma HashNext(m: seq<bv8>, q: nat)
    requires q % 64 == 0 && q + 64 <= |m|
    ensures HashBlocks(INITIAL, m[..q + 64]) == Compress(HashBlocks(INITIAL, m[..q]), Parse(m[q..q + 64]))
  {
    hide Parse, Compress;
    assert m[..q + 64] == m[..q] + m[q..q + 64];
    HashBlocksSplit(INITIAL, m[..q], m[q..q + 64]);
    HashOneBlock(HashBlocks(INITIAL, m[..q]), m[q..q + 64]);
  }

  lemma SplitWord(q: nat, lo: Word32)
    ensures (0x1_0000_0000 * q + lo) % 0x1_0000_0000 == lo && (0x1_0000_0000 * q + lo) / 0x1_0000_0000 == q
  {}

  lemma NextWord(q: nat)
    ensures (q % 0x1_0000_0000 + 1) % 0x1_0000_0000 == (q + 1) % 0x1_0000_0000
  {}

  /** Counting bytes in two 32-bit words with a carry. */
  lemma LengthCarry(n: nat, sz: Word32)
    ensures var lo, hi := n % 0x1_0000_0000, n / 0x1_0000_0000 % 0x1_0000_0000;
            var lo' := (lo + sz) % 0x1_0000_0000;
            var hi' := if lo' < sz then (hi + 1) % 0x1_0000_0000 else hi;
            lo' == (n + sz) % 0x1_0000_0000 && hi' == (n + sz) / 0x1_0000_0000 % 0x1_0000_0000
  {
    var q, lo := n / 0x1_0000_0000, n % 0x1_0000_0000;
    if lo + sz < 0x1_0000_0000 {
      SplitWord(q, lo + sz);
    } else {
      SplitWord(q + 1, lo + sz - 0x1_0000_0000);
      NextWord(q);
      SplitWord(1, lo + sz - 0x1_0000_0000);
    }
  }

  lemma ParseWords(p: seq<bv32>, m: seq<bv8>)
    requires |p| == 16 && |m| == 64
    requires forall k | 0 <= k < 16 :: p[k] == WordAt(m, k)
    ensures p == Parse(m)
  {
    hide WordAt;
  }

  lemma Overwrite(s: seq<bv8>, i: nat, d: seq<bv8>, x: bv8)
    requires i + |d| < |s|
    ensures (s[..i] + d + s[i + |d|..])[i + |d| := x] == s[..i] + (d + [x]) + s[i + |d| + 1..]
  {}

  /** After a multiple of eight rounds the registers are back in place. */
  lemma ViewTurn(b: seq<bv32>, t: nat)
    requires |b| == 8 && t % 8 == 0
    ensures View(b, t) == RegsOf(b)
  {}

  lemma RoundsNext(block: BlockWords, r: Regs, t: nat)
    requires t < 64
    ensures Rounds(block, r, 0) == r
    ensures Rounds(block, r, t + 1) == Round(Rounds(block, r, t), RoundConstant(t), W(block, t))
  {}

  lemma WindowStart(block: BlockWords)
    ensures Window(block, block, 0)
  {}
}
