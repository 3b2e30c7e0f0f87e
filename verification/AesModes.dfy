/** The mode functions of aes256.cpp: a context with its round keys and chaining block, and the
    caller's buffer changed in place. */
module AesModes {
  import opened ByteXor
  import opened AesSpec
  import opened AesKeys
  import opened BlockModes
  import Aes

  // ---------- Blocks ----------

  function Bytes(s: State): Block {
    [s.c0.k0, s.c0.k1, s.c0.k2, s.c0.k3, s.c1.k0, s.c1.k1, s.c1.k2, s.c1.k3,
     s.c2.k0, s.c2.k1, s.c2.k2, s.c2.k3, s.c3.k0, s.c3.k1, s.c3.k2, s.c3.k3]
  }

  lemma BytesOfState(s: seq<bv8>, i: nat)
    requires i + 16 <= |s|
    ensures Bytes(StateAt(s, i)) == s[i..i + 16]
  {}

  lemma StateOfBytes(s: State)
    ensures StateAt(Bytes(s), 0) == s
  {}

  function Encrypt(w: RoundKeys, b: Block): Block {
    Bytes(Cipher(w, StateAt(b, 0)))
  }

  function Decrypt(w: RoundKeys, b: Block): Block {
    Bytes(InvCipher(w, StateAt(b, 0)))
  }

  lemma DecryptEncrypt(w: RoundKeys, b: Block)
    ensures Decrypt(w, Encrypt(w, b)) == b
  {
    hide Bytes, StateAt, Cipher, InvCipher;
    StateOfBytes(Cipher(w, StateAt(b, 0)));
    CipherInverse(w, StateAt(b, 0));
    BytesOfState(b, 0);
    assert b[0..16] == b;
  }

  function AesCipher(w: RoundKeys): BlockCipher {
    (b: Block) => Encrypt(w, b)
  }

  function AesInvCipher(w: RoundKeys): BlockCipher {
    (b: Block) => Decrypt(w, b)
  }

  /** CBC decryption restores every buffer of whole blocks. */
  lemma CbcRestores(w: RoundKeys, iv: Block, p: seq<bv8>)
    requires |p| % 16 == 0
    ensures CbcDecrypt(AesInvCipher(w), iv, CbcEncrypt(AesCipher(w), iv, p)) == p
  {
    hide Encrypt, Decrypt;
    forall b
      ensures AesInvCipher(w)(AesCipher(w)(b)) == b
    {
      DecryptEncrypt(w, b);
    }
    CbcInverse(AesCipher(w), AesInvCipher(w), iv, p);
  }

  /** s with the 16 bytes from i replaced by b. */
  function Put(s: seq<bv8>, i: nat, b: Block): (r: seq<bv8>)
    requires i + 16 <= |s|
    ensures |r| == |s|
  {
    s[..i] + b + s[i + 16..]
  }

  class AesCtx {
    const RoundKey: array<bv8>
    const Iv: array<bv8>

    ghost predicate Valid() {
      RoundKey.Length == 240 && Iv.Length == 16 && RoundKey != Iv
    }

    /** The buffer is apart from the context. */
    ghost predicate Apart(buf: array<bv8>) {
      buf != RoundKey && buf != Iv
    }

    /** AES_init_ctx_iv. */
    constructor (key: Key, iv: Block)
      ensures Valid() && RoundKey[..] == Expand(key) && Iv[..] == iv
      ensures fresh(RoundKey) && fresh(Iv)
    {
      RoundKey := new bv8[240](_ => 0);
      Iv := new bv8[16](i requires 0 <= i < 16 => iv[i]);
      new;
      KeyExpansion(RoundKey, key);
    }

    /** AES_ctx_set_iv. */
    method SetIv(iv: Block)
      requires Valid()
      modifies Iv
      ensures Iv[..] == iv
    {
      forall i | 0 <= i < 16 {
        Iv[i] := iv[i];
      }
    }

    method CipherAt(buf: array<bv8>, off: nat)
      requires Valid() && buf != RoundKey && off + 16 <= buf.Length
      modifies buf
      ensures buf[..] == Put(old(buf[..]), off, Encrypt(RoundKey[..], old(buf[off..off + 16])))
    {
      hide Bytes, StateAt, Cipher;
      ghost var was := buf[..];
      Aes.Cipher(buf, off, RoundKey);
      StateAtSlice(was, off);
      BytesOfState(buf[..], off);
      PutSlice(was, buf[..], off);
    }

    method InvCipherAt(buf: array<bv8>, off: nat)
      requires Valid() && buf != RoundKey && off + 16 <= buf.Length
      modifies buf
      ensures buf[..] == Put(old(buf[..]), off, Decrypt(RoundKey[..], old(buf[off..off + 16])))
    {
      hide Bytes, StateAt, InvCipher;
      ghost var was := buf[..];
      Aes.InvCipher(buf, off, RoundKey);
      StateAtSlice(was, off);
      BytesOfState(buf[..], off);
      PutSlice(was, buf[..], off);
    }

    /** The body of the encryption loop. */
    method CbcEncryptBlock(buf: array<bv8>, i: nat, iv: array<bv8>, ivOff: nat)
      requires Valid() && Apart(buf) && i + 16 <= buf.Length
      requires ivOff + 16 <= iv.Length && (iv == buf ==> ivOff + 16 <= i)
      modifies buf
      ensures buf[..] == Put(old(buf[..]), i, Encrypt(RoundKey[..], XorBytes(old(buf[i..i + 16]), old(iv[ivOff..ivOff + 16]))))
    {
      hide XorBytes, Encrypt;
      XorWithIv(buf, i, iv, ivOff);
      CipherAt(buf, i);
    }

    method CbcEncryptBuffer(buf: array<bv8>, length: nat)
      requires Valid() && Apart(buf) && length <= buf.Length && length % 16 == 0
      modifies buf, Iv
      ensures buf[..length] == CbcEncrypt(AesCipher(RoundKey[..]), old(Iv[..]), old(buf[..length]))
      ensures buf[length..] == old(buf[length..])
      ensures Iv[..] == NextIv(old(Iv[..]), buf[..length])
    {
      hide XorBytes, Encrypt, Put, CbcEncrypt, NextIv;
      ghost var enc, iv0, was := AesCipher(RoundKey[..]), Iv[..], buf[..];
      assert CbcEncrypt(enc, iv0, was[..0]) == [];
      var iv, ivOff := Iv, 0;
      var i := 0;
      while i < length
        invariant i <= length && i % 16 == 0
        invariant if i == 0 then iv == Iv && ivOff == 0 else iv == buf && ivOff == i - 16
        invariant Iv[..] == iv0
        invariant buf[..i] == CbcEncrypt(enc, iv0, was[..i]) && buf[i..] == was[i..]
      {
        ghost var before := buf[..];
        SameTail(before, was, i);
        NextIvAt(iv0, before, i);
        assert iv[ivOff..ivOff + 16] == NextIv(iv0, before[..i]);
        CbcEncryptNext(enc, iv0, was, before, i);
        CbcEncryptBlock(buf, i, iv, ivOff);
        PutParts(before, i, enc(XorBytes(was[i..i + 16], NextIv(iv0, before[..i]))));
        iv, ivOff := buf, i;
        i := i + 16;
      }
      NextIvAt(iv0, buf[..], i);
      CopyBlock(Iv, iv, ivOff);
    }

    /** The body of the decryption loop. */
    method CbcDecryptBlock(buf: array<bv8>, i: nat, storeNextIv: array<bv8>)
      requires Valid() && Apart(buf) && i + 16 <= buf.Length
      requires storeNextIv.Length == 16 && storeNextIv != buf && storeNextIv != Iv && storeNextIv != RoundKey
      modifies buf, Iv, storeNextIv
      ensures buf[..] == Put(old(buf[..]), i, XorBytes(Decrypt(RoundKey[..], old(buf[i..i + 16])), old(Iv[..])))
      ensures Iv[..] == old(buf[i..i + 16])
    {
      hide XorBytes, Decrypt;
      ghost var was, key := buf[..], Iv[..];
      CopyBlock(storeNextIv, buf, i);
      InvCipherAt(buf, i);
      ghost var plain := buf[..];
      assert plain[i..i + 16] == Decrypt(RoundKey[..], was[i..i + 16]);
      XorWithIv(buf, i, Iv, 0);
      assert Iv[0..16] == key;
      CopyBlock(Iv, storeNextIv, 0);
      assert storeNextIv[0..16] == storeNextIv[..];
      assert plain[..i] == was[..i] && plain[i + 16..] == was[i + 16..];
    }

    method CbcDecryptBuffer(buf: array<bv8>, length: nat)
      requires Valid() && Apart(buf) && length <= buf.Length && length % 16 == 0
      modifies buf, Iv
      ensures buf[..length] == CbcDecrypt(AesInvCipher(RoundKey[..]), old(Iv[..]), old(buf[..length]))
      ensures buf[length..] == old(buf[length..])
      ensures Iv[..] == NextIv(old(Iv[..]), old(buf[..length]))
    {
      hide XorBytes, Decrypt, Put, CbcDecrypt, NextIv;
      ghost var dec, iv0, was := AesInvCipher(RoundKey[..]), Iv[..], buf[..];
      assert CbcDecrypt(dec, iv0, was[..0]) == [];
      NextIvAt(iv0, was, 0);
      var storeNextIv := new bv8[16](_ => 0);
      var i := 0;
      while i < length
        invariant i <= length && i % 16 == 0
        invariant Iv[..] == NextIv(iv0, was[..i])
        invariant buf[..i] == CbcDecrypt(dec, iv0, was[..i]) && buf[i..] == was[i..]
      {
        ghost var before, chain := buf[..], Iv[..];
        SameTail(before, was, i);
        CbcDecryptNext(dec, iv0, was, before, i);
        CbcDecryptBlock(buf, i, storeNextIv);
        PutParts(before, i, XorBytes(dec(was[i..i + 16]), chain));
        i := i + 16;
      }
      assert was[..i] == old(buf[..length]);
    }

    /** One call of CBC encryption for each buffer: together they are one call on all of them. */
    method CbcEncryptBuffers(bufs: seq<array<bv8>>)
      requires Valid() && (forall k | 0 <= k < |bufs| :: Apart(bufs[k]) && bufs[k].Length % 16 == 0)
      requires forall j, k | 0 <= j < k < |bufs| :: bufs[j] != bufs[k]
      modifies bufs, Iv
      ensures Joined(Contents(bufs)) == CbcEncrypt(AesCipher(RoundKey[..]), old(Iv[..]), Joined(old(Contents(bufs))))
      ensures WholeBlocks(Contents(bufs)) && Iv[..] == NextIv(old(Iv[..]), Joined(Contents(bufs)))
    {
      hide AesCipher, CbcEncrypt, NextIv, Joined, CbcEncryptCalls;
      ghost var enc, iv0, ps := AesCipher(RoundKey[..]), Iv[..], Contents(bufs);
      ghost var cs := CbcEncryptCalls(enc, iv0, ps);
      NoneJoined(iv0, cs);
      var k := 0;
      while k < |bufs|
        invariant 0 <= k <= |bufs| && Valid() && RoundKey[..] == old(RoundKey[..])
        invariant forall j | k <= j < |bufs| :: bufs[j][..] == ps[j]
        invariant forall j | 0 <= j < k :: bufs[j][..] == cs[j]
        invariant Iv[..] == NextIv(iv0, Joined(cs[..k]))
      {
        ghost var buf := bufs[k];
        WholeSlice(buf);
        CbcEncryptBuffer(bufs[k], bufs[k].Length);
        WholeSlice(buf);
        EncryptCallAt(enc, iv0, ps, k);
        NextPiece(iv0, cs, k);
        k := k + 1;
      }
      assert Contents(bufs) == cs && cs[..k] == cs;
      CbcEncryptPieces(enc, iv0, ps);
    }

    method CbcDecryptBuffers(bufs: seq<array<bv8>>)
      requires Valid() && (forall k | 0 <= k < |bufs| :: Apart(bufs[k]) && bufs[k].Length % 16 == 0)
      requires forall j, k | 0 <= j < k < |bufs| :: bufs[j] != bufs[k]
      modifies bufs, Iv
      ensures Joined(Contents(bufs)) == CbcDecrypt(AesInvCipher(RoundKey[..]), old(Iv[..]), Joined(old(Contents(bufs))))
      ensures WholeBlocks(old(Contents(bufs))) && Iv[..] == NextIv(old(Iv[..]), Joined(old(Contents(bufs))))
    {
      hide AesInvCipher, CbcDecrypt, NextIv, Joined, CbcDecryptCalls;
      ghost var dec, iv0, cs := AesInvCipher(RoundKey[..]), Iv[..], Contents(bufs);
      ghost var ps := CbcDecryptCalls(dec, iv0, cs);
      NoneJoined(iv0, cs);
      var k := 0;
      while k < |bufs|
        invariant 0 <= k <= |bufs| && Valid() && RoundKey[..] == old(RoundKey[..])
        invariant forall j | k <= j < |bufs| :: bufs[j][..] == cs[j]
        invariant forall j | 0 <= j < k :: bufs[j][..] == ps[j]
        invariant Iv[..] == NextIv(iv0, Joined(cs[..k]))
      {
        ghost var buf := bufs[k];
        WholeSlice(buf);
        CbcDecryptBuffer(bufs[k], bufs[k].Length);
        WholeSlice(buf);
        DecryptCallAt(dec, iv0, cs, k);
        NextPiece(iv0, cs, k);
        k := k + 1;
      }
      assert Contents(bufs) == ps && cs[..k] == cs;
      CbcDecryptPieces(dec, iv0, cs);
    }

    /** The counter is increased by one; the carry runs from the last byte to the first. */
    method IncrementIv()
      requires Valid()
      modifies Iv
      ensures Iv[..] == Inc(old(Iv[..]))
    {
      hide Inc;
      ghost var was := Iv[..];
      assert was[..16] == was && Iv[16..] == [];
      var bi := 15;
      while bi >= 0
        invariant -1 <= bi <= 15
        invariant Iv[..bi + 1] == was[..bi + 1]
        invariant Inc(was) == Inc(was[..bi + 1]) + Iv[bi + 1..]
      {
        CarryStep(was, Iv[..], bi);
        if Iv[bi] == 255 {
          Iv[bi] := 0;
          bi := bi - 1;
          continue;
        }
        Iv[bi] := Iv[bi] + 1;
        return;
      }
      NoCarry();
      assert Iv[..] == Iv[0..];
    }

    /** Regenerating the key stream buffer. */
    method NextKeyBlock(buffer: array<bv8>)
      requires Valid() && Apart(buffer) && buffer.Length == 16
      modifies buffer, Iv
      ensures buffer[..] == Encrypt(RoundKey[..], old(Iv[..])) && Iv[..] == Inc(old(Iv[..]))
    {
      hide Encrypt, Inc;
      CopyBlock(buffer, Iv, 0);
      assert buffer[0..16] == Iv[0..16] == Iv[..];
      CipherAt(buffer, 0);
      IncrementIv();
    }

    method CtrXcryptBuffer(buf: array<bv8>, length: nat)
      requires Valid() && Apart(buf) && length <= buf.Length
      modifies buf, Iv
      ensures buf[..length] == CtrCrypt(AesCipher(RoundKey[..]), old(Iv[..]), old(buf[..length]))
      ensures buf[length..] == old(buf[length..])
      ensures Iv[..] == IncBy(old(Iv[..]), (length + 15) / 16)
    {
      hide Add, Encrypt, Inc, KeyStream;
      ghost var enc, iv0, was := AesCipher(RoundKey[..]), Iv[..], buf[..];
      var buffer := new bv8[16](_ => 0);
      var i, bi := 0, 16;
      ghost var blocks := 0;
      while i < length
        invariant i <= length && bi <= 16 && i + 16 == 16 * blocks + bi && (i > 0 ==> bi > 0)
        invariant Iv[..] == IncBy(iv0, blocks)
        invariant bi < 16 ==> blocks > 0 && buffer[..] == enc(IncBy(iv0, blocks - 1))
        invariant forall k | 0 <= k < i :: buf[k] == Add(was[k], KeyStream(enc, iv0, k))
        invariant forall k | i <= k < buf.Length :: buf[k] == was[k]
      {
        if bi == 16 {
          NextKeyBlock(buffer);
          bi := 0;
          blocks := blocks + 1;
        }
        assert buffer[..] == enc(IncBy(iv0, blocks - 1));
        KeyStreamAt(enc, iv0, blocks - 1, bi);
        buf[i] := Add(buf[i], buffer[bi]);
        i, bi := i + 1, bi + 1;
      }
      assert buf[..length] == CtrCrypt(enc, iv0, was[..length]);
    }
  }

  lemma KeyStreamAt(enc: BlockCipher, iv: Block, m: nat, b: nat)
    requires b < 16
    ensures KeyStream(enc, iv, 16 * m + b) == enc(IncBy(iv, m))[b]
  {
    hide IncBy;
    assert (16 * m + b) / 16 == m && (16 * m + b) % 16 == b;
  }

  lemma WholeSlice(buf: array<bv8>)
    ensures buf[..buf.Length] == buf[..]
  {
  }

  lemma NoneJoined(iv: Block, ps: seq<seq<bv8>>)
    ensures Joined(ps[..0]) == [] && NextIv(iv, Joined(ps[..0])) == iv
  {
  }

  lemma NextPiece(iv: Block, ps: seq<seq<bv8>>, k: nat)
    requires k < |ps| && WholeBlocks(ps)
    ensures WholeBlocks(ps[..k]) && WholeBlocks(ps[..k + 1])
    ensures NextIv(iv, Joined(ps[..k + 1])) == NextIv(NextIv(iv, Joined(ps[..k])), ps[k])
  {
    hide NextIv;
    assert ps[..k + 1] == ps[..k] + [ps[k]];
    JoinedLast(ps[..k], ps[k]);
    NextIvSplit(iv, Joined(ps[..k]), ps[k]);
  }

  /** What one call of a run of calls does. */
  lemma {:induction false} EncryptCallAt(enc: BlockCipher, iv: Block, ps: seq<seq<bv8>>, k: nat)
    requires k < |ps| && WholeBlocks(ps)
    ensures var cs := CbcEncryptCalls(enc, iv, ps);
            WholeBlocks(cs[..k]) && cs[k] == CbcEncrypt(enc, NextIv(iv, Joined(cs[..k])), ps[k])
    decreases |ps|
  {
    hide CbcEncrypt, NextIv, Joined;
    var cs, n := CbcEncryptCalls(enc, iv, ps), |ps| - 1;
    var front := CbcEncryptCalls(enc, iv, ps[..n]);
    assert cs[..n] == front;
    if k < n {
      EncryptCallAt(enc, iv, ps[..n], k);
      assert cs[..k] == front[..k];
    }
  }

  lemma {:induction false} DecryptCallAt(dec: BlockCipher, iv: Block, cs: seq<seq<bv8>>, k: nat)
    requires k < |cs| && WholeBlocks(cs)
    ensures WholeBlocks(cs[..k]) && CbcDecryptCalls(dec, iv, cs)[k] == CbcDecrypt(dec, NextIv(iv, Joined(cs[..k])), cs[k])
    decreases |cs|
  {
    hide CbcDecrypt, NextIv, Joined;
    var n := |cs| - 1;
    if k < n {
      DecryptCallAt(dec, iv, cs[..n], k);
      assert cs[..n][..k] == cs[..k];
    }
  }

  ghost function Contents(bufs: seq<array<bv8>>): (s: seq<seq<bv8>>)
    reads bufs
    ensures |s| == |bufs|
  {
    seq(|bufs|, i requires 0 <= i < |bufs| reads bufs => bufs[i][..])
  }

  /** One byte of the counter: now agrees with was up to and including bi. */
  lemma CarryStep(was: seq<bv8>, now: seq<bv8>, bi: nat)
    requires bi < |was| == |now| && now[..bi + 1] == was[..bi + 1]
    requires Inc(was) == Inc(was[..bi + 1]) + now[bi + 1..]
    ensures now[..bi] == was[..bi]
    ensures now[bi] == 255 ==> Inc(was) == Inc(was[..bi]) + now[bi := 0][bi..]
    ensures now[bi] != 255 ==> Inc(was) == now[bi := now[bi] + 1]
  {
    hide Inc;
    var p, b, rest := was[..bi], now[bi], now[bi + 1..];
    FrontParts(was, now, bi);
    IncSnoc(p, b);
    if b == 255 {
      UpdateParts(now, bi, 0);
      ConcatThree(Inc(p), [0], rest);
    } else {
      UpdateParts(now, bi, b + 1);
    }
  }

  lemma FrontParts(was: seq<bv8>, now: seq<bv8>, bi: nat)
    requires bi < |was| == |now| && now[..bi + 1] == was[..bi + 1]
    ensures was[..bi + 1] == was[..bi] + [now[bi]] && now[..bi] == was[..bi]
  {
    assert now[bi] == now[..bi + 1][bi] == was[bi];
    assert now[..bi] == now[..bi + 1][..bi] == was[..bi];
  }

  lemma UpdateParts(s: seq<bv8>, i: nat, b: bv8)
    requires i < |s|
    ensures s[i := b][i..] == [b] + s[i + 1..] && s[i := b] == s[..i] + [b] + s[i + 1..]
  {
  }

  lemma IncSnoc(p: seq<bv8>, b: bv8)
    ensures Inc(p + [b]) == if b == 255 then Inc(p) + [0] else p + [b + 1]
  {
    IncLast(p + [b]);
    assert (p + [b])[..|p|] == p;
  }

  lemma IncLast(s: seq<bv8>)
    requires s != []
    ensures var n := |s| - 1;
            Inc(s) == if s[n] == 255 then Inc(s[..n]) + [0] else s[..n] + [s[n] + 1]
  {
  }

  lemma NoCarry()
    ensures Inc([]) == []
  {
  }

  lemma SameTail(s: seq<bv8>, t: seq<bv8>, i: nat)
    requires i + 16 <= |s| == |t| && s[i..] == t[i..]
    ensures s[i..i + 16] == t[i..i + 16] && s[i + 16..] == t[i + 16..]
  {
    assert forall k | i <= k < |s| :: s[k] == s[i..][k - i] == t[k];
  }

  lemma NextIvAt(iv: Block, s: seq<bv8>, i: nat)
    requires i <= |s| && i % 16 == 0
    ensures NextIv(iv, s[..i]) == if i == 0 then iv else s[i - 16..i]
  {}

  lemma PutParts(s: seq<bv8>, i: nat, b: Block)
    requires i + 16 <= |s|
    ensures Put(s, i, b)[..i + 16] == s[..i] + b && Put(s, i, b)[i + 16..] == s[i + 16..]
  {}

  /** One more block of CBC encryption. */
  lemma CbcEncryptNext(enc: BlockCipher, iv: Block, was: seq<bv8>, now: seq<bv8>, i: nat)
    requires i % 16 == 0 && i + 16 <= |was| == |now|
    requires now[..i] == CbcEncrypt(enc, iv, was[..i])
    ensures CbcEncrypt(enc, iv, was[..i + 16]) == now[..i] + enc(XorBytes(was[i..i + 16], NextIv(iv, now[..i])))
  {
    hide XorBytes;
    var p, q := was[..i], was[i..i + 16];
    assert was[..i + 16] == p + q;
    CbcEncryptSplit(enc, iv, p, q);
    assert q[..16] == q && q[16..] == [];
    assert CbcEncrypt(enc, NextIv(iv, now[..i]), q) == enc(XorBytes(q, NextIv(iv, now[..i])));
  }

  lemma CbcDecryptNext(dec: BlockCipher, iv: Block, was: seq<bv8>, now: seq<bv8>, i: nat)
    requires i % 16 == 0 && i + 16 <= |was| == |now|
    requires now[..i] == CbcDecrypt(dec, iv, was[..i])
    ensures CbcDecrypt(dec, iv, was[..i + 16]) == now[..i] + XorBytes(dec(was[i..i + 16]), NextIv(iv, was[..i]))
    ensures NextIv(iv, was[..i + 16]) == was[i..i + 16]
  {
    hide XorBytes;
    var p, q := was[..i], was[i..i + 16];
    assert was[..i + 16] == p + q;
    CbcDecryptSplit(dec, iv, p, q);
    assert q[..16] == q && q[16..] == [];
    assert CbcDecrypt(dec, NextIv(iv, p), q) == XorBytes(dec(q), NextIv(iv, p));
  }

  lemma StateAtSlice(s: seq<bv8>, i: nat)
    requires i + 16 <= |s|
    ensures StateAt(s[i..i + 16], 0) == StateAt(s, i)
  {}

  lemma PutSlice(was: seq<bv8>, now: seq<bv8>, off: nat)
    requires off + 16 <= |was| && Aes.SameOutside(was, now, off)
    ensures now == Put(was, off, now[off..off + 16])
  {}

  /** The first 16 bytes of iv from ivOff are added to the block; iv may be an earlier part of the buffer. */
  method XorWithIv(buf: array<bv8>, off: nat, iv: array<bv8>, ivOff: nat)
    requires off + 16 <= buf.Length && ivOff + 16 <= iv.Length
    requires iv == buf ==> ivOff + 16 <= off
    modifies buf
    ensures buf[..] == Put(old(buf[..]), off, XorBytes(old(buf[off..off + 16]), old(iv[ivOff..ivOff + 16])))
  {
    hide Add;
    ghost var was, key := buf[..], iv[ivOff..ivOff + 16];
    for i := 0 to 16
      invariant forall k | off <= k < off + i :: buf[k] == Add(was[k], key[k - off])
      invariant forall k | 0 <= k < buf.Length && !(off <= k < off + i) :: buf[k] == was[k]
    {
      assert iv[ivOff + i] == key[i];
      buf[off + i] := Add(buf[off + i], iv[ivOff + i]);
    }
    assert buf[off..off + 16] == XorBytes(was[off..off + 16], key);
  }

  /** memcpy of one block. */
  method CopyBlock(to: array<bv8>, from: array<bv8>, fromOff: nat)
    requires to.Length == 16 && fromOff + 16 <= from.Length
    requires to == from ==> fromOff == 0
    modifies to
    ensures to[..] == old(from[fromOff..fromOff + 16])
  {
    for i := 0 to 16
      invariant forall k | 0 <= k < i :: to[k] == old(from[fromOff + k])
      invariant to == from ==> forall k | 0 <= k < 16 :: to[k] == old(to[k])
    {
      to[i] := from[fromOff + i];
    }
  }
}
