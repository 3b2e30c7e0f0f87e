/** The block cipher of aes256.cpp. The state is 16 bytes of the caller's buffer, changed in place;
    each step is proved against its definition in FIPS 197. */
module Aes {
  import opened ByteXor
  import opened AesSpec

  /** Only the 16 bytes from off may differ. */
  ghost predicate SameOutside(before: seq<bv8>, after: seq<bv8>, off: nat) {
    && |before| == |after|
    && forall k | 0 <= k < |before| && !(off <= k < off + 16) :: after[k] == before[k]
  }

  method AddRoundKey(round: nat, buf: array<bv8>, off: nat, roundKey: array<bv8>)
    requires off + 16 <= buf.Length && roundKey.Length == 240 && round <= ROUNDS && buf != roundKey
    modifies buf
    ensures forall k | off <= k < off + 16 :: buf[k] == old(buf[k]) ^ roundKey[16 * round + k - off]
    ensures StateAt(buf[..], off) == Xor(old(StateAt(buf[..], off)), RoundKey(roundKey[..], round))
    ensures SameOutside(old(buf[..]), buf[..], off)
  {
    hide Add;
    ghost var was := buf[..];
    for i := 0 to 4
      invariant forall k | off <= k < off + 4 * i :: buf[k] == Add(was[k], roundKey[16 * round + k - off])
      invariant forall k | 0 <= k < buf.Length && !(off <= k < off + 4 * i) :: buf[k] == was[k]
    {
      for j := 0 to 4
        invariant forall k | off <= k < off + 4 * i + j :: buf[k] == Add(was[k], roundKey[16 * round + k - off])
        invariant forall k | 0 <= k < buf.Length && !(off <= k < off + 4 * i + j) :: buf[k] == was[k]
      {
        buf[off + 4 * i + j] := Add(buf[off + 4 * i + j], roundKey[round * 4 * 4 + i * 4 + j]);
      }
    }
    KeyAdded(was, buf[..], off, roundKey[..], round);
  }

  /** Sixteen sums of bytes are the sum of two states. */
  lemma KeyAdded(before: seq<bv8>, after: seq<bv8>, off: nat, roundKey: RoundKeys, round: nat)
    requires off + 16 <= |before| == |after| && round <= ROUNDS
    requires forall k | off <= k < off + 16 :: after[k] == Add(before[k], roundKey[16 * round + k - off])
    ensures forall k | off <= k < off + 16 :: after[k] == before[k] ^ roundKey[16 * round + k - off]
    ensures StateAt(after, off) == Xor(StateAt(before, off), RoundKey(roundKey, round))
  {
  }

  /** Has byte n of the state been reached, when the loops go row by row and stand at row i, column j? */
  ghost predicate Reached(n: nat, i: nat, j: nat) {
    n % 4 < i || (n % 4 == i && n / 4 < j)
  }

  method SubBytes(buf: array<bv8>, off: nat)
    requires off + 16 <= buf.Length
    modifies buf
    ensures StateAt(buf[..], off) == AesSpec.SubBytes(old(StateAt(buf[..], off)))
    ensures SameOutside(old(buf[..]), buf[..], off)
  {
    hide SBox;
    ghost var was := buf[..];
    for i := 0 to 4
      invariant forall k | off <= k < off + 16 :: buf[k] == if Reached(k - off, i, 0) then SBox(was[k]) else was[k]
      invariant SameOutside(was, buf[..], off)
    {
      for j := 0 to 4
        invariant forall k | off <= k < off + 16 :: buf[k] == if Reached(k - off, i, j) then SBox(was[k]) else was[k]
        invariant SameOutside(was, buf[..], off)
      {
        buf[off + 4 * j + i] := SBox(buf[off + 4 * j + i]);
      }
    }
  }

  method InvSubBytes(buf: array<bv8>, off: nat)
    requires off + 16 <= buf.Length
    modifies buf
    ensures StateAt(buf[..], off) == AesSpec.InvSubBytes(old(StateAt(buf[..], off)))
    ensures SameOutside(old(buf[..]), buf[..], off)
  {
    hide RSBox;
    ghost var was := buf[..];
    for i := 0 to 4
      invariant forall k | off <= k < off + 16 :: buf[k] == if Reached(k - off, i, 0) then RSBox(was[k]) else was[k]
      invariant SameOutside(was, buf[..], off)
    {
      for j := 0 to 4
        invariant forall k | off <= k < off + 16 :: buf[k] == if Reached(k - off, i, j) then RSBox(was[k]) else was[k]
        invariant SameOutside(was, buf[..], off)
      {
        buf[off + 4 * j + i] := RSBox(buf[off + 4 * j + i]);
      }
    }
  }

  /** Four bytes move one place to the left. */
  method Rotate4(buf: array<bv8>, i0: nat, i1: nat, i2: nat, i3: nat)
    requires i0 < buf.Length && i1 < buf.Length && i2 < buf.Length && i3 < buf.Length
    requires i0 != i1 && i0 != i2 && i0 != i3 && i1 != i2 && i1 != i3 && i2 != i3
    modifies buf
    ensures buf[..] == old(buf[..])[i0 := old(buf[i1])][i1 := old(buf[i2])][i2 := old(buf[i3])][i3 := old(buf[i0])]
  {
    var temp := buf[i0];
    buf[i0] := buf[i1];
    buf[i1] := buf[i2];
    buf[i2] := buf[i3];
    buf[i3] := temp;
  }

  method Swap2(buf: array<bv8>, i: nat, j: nat)
    requires i < buf.Length && j < buf.Length
    modifies buf
    ensures buf[..] == old(buf[..])[i := old(buf[j])][j := old(buf[i])]
  {
    var temp := buf[i];
    buf[i] := buf[j];
    buf[j] := temp;
  }

  method ShiftRows(buf: array<bv8>, off: nat)
    requires off + 16 <= buf.Length
    modifies buf
    ensures StateAt(buf[..], off) == AesSpec.ShiftRows(old(StateAt(buf[..], off)))
    ensures SameOutside(old(buf[..]), buf[..], off)
  {
    Rotate4(buf, off + 1, off + 5, off + 9, off + 13);
    Swap2(buf, off + 2, off + 10);
    Swap2(buf, off + 6, off + 14);
    Rotate4(buf, off + 3, off + 15, off + 11, off + 7);
  }

  method InvShiftRows(buf: array<bv8>, off: nat)
    requires off + 16 <= buf.Length
    modifies buf
    ensures StateAt(buf[..], off) == AesSpec.InvShiftRows(old(StateAt(buf[..], off)))
    ensures SameOutside(old(buf[..]), buf[..], off)
  {
    Rotate4(buf, off + 13, off + 9, off + 5, off + 1);
    Swap2(buf, off + 2, off + 10);
    Swap2(buf, off + 6, off + 14);
    Rotate4(buf, off + 3, off + 7, off + 11, off + 15);
  }

  /** The shortcut for one byte of MixColumns: a changes by xtime of a + b and the sum of the column. */
  lemma MixByte(a: bv8, b: bv8, c: bv8, d: bv8)
    ensures Add(a, Add(XTime(Add(a, b)), Add(Add(Add(a, b), c), d))) == Dot(MIX, a, b, c, d)
  {
    hide Add, XTime, GfMul;
    var xa, xb := XTime(a), XTime(b);
    GfMulSmall(a);
    GfMulSmall(b);
    GfMulSmall(c);
    GfMulSmall(d);
    XTimeAdd(a, b);
    AddAssoc(Add(a, b), c, d);
    AddAssoc(Add(xa, xb), Add(a, b), Add(c, d));
    AddSwap(xa, xb, a, b);
    AddAssoc(a, Add(Add(xa, a), Add(xb, b)), Add(c, d));
    AddAssoc(a, Add(xa, a), Add(xb, b));
    AddComm(a, Add(xa, a));
    AddTwice(xa, a);
    AddComm(xb, b);
  }

  lemma MixWord(w: Word)
    ensures var sum := Add(Add(Add(w.k0, w.k1), w.k2), w.k3);
            Times(MIX, w) == Word(Add(w.k0, Add(XTime(Add(w.k0, w.k1)), sum)), Add(w.k1, Add(XTime(Add(w.k1, w.k2)), sum)),
                                  Add(w.k2, Add(XTime(Add(w.k2, w.k3)), sum)), Add(w.k3, Add(XTime(Add(w.k3, w.k0)), sum)))
  {
    hide Add, XTime, Dot;
    MixByte(w.k0, w.k1, w.k2, w.k3);
    MixByte(w.k1, w.k2, w.k3, w.k0);
    MixByte(w.k2, w.k3, w.k0, w.k1);
    MixByte(w.k3, w.k0, w.k1, w.k2);
    SumOrder(w.k0, w.k1, w.k2, w.k3);
    SumOrder(w.k1, w.k2, w.k3, w.k0);
    SumOrder(w.k2, w.k3, w.k0, w.k1);
  }

  lemma SumOrder(a: bv8, b: bv8, c: bv8, d: bv8)
    ensures Add(Add(Add(a, b), c), d) == Add(Add(Add(b, c), d), a)
  {
    hide Add;
    AddAssoc(a, b, c);
    AddAssoc(a, Add(b, c), d);
    AddComm(a, Add(Add(b, c), d));
  }

  /** The columns before i are mixed. */
  ghost predicate Mixed(k: Word, was: seq<bv8>, now: seq<bv8>, off: nat, i: nat)
    requires i <= 4 && off + 16 <= |was| == |now|
  {
    && (forall c | 0 <= c < i :: WordAt(now, off + 4 * c) == Times(k, WordAt(was, off + 4 * c)))
    && (forall n | 0 <= n < |was| && !(off <= n < off + 4 * i) :: now[n] == was[n])
  }

  /** Mixing one more column. */
  lemma MixedNext(k: Word, was: seq<bv8>, before: seq<bv8>, now: seq<bv8>, off: nat, i: nat)
    requires i < 4 && off + 16 <= |was| == |before| == |now|
    requires Mixed(k, was, before, off, i)
    requires WordAt(now, off + 4 * i) == Times(k, WordAt(before, off + 4 * i))
    requires forall n | 0 <= n < |was| && !(off + 4 * i <= n < off + 4 * i + 4) :: now[n] == before[n]
    ensures Mixed(k, was, now, off, i + 1)
  {
    hide Times;
    forall c | 0 <= c < i + 1
      ensures WordAt(now, off + 4 * c) == Times(k, WordAt(was, off + 4 * c))
    {
      assert c < i ==> WordAt(now, off + 4 * c) == WordAt(before, off + 4 * c);
      assert c == i ==> WordAt(was, off + 4 * c) == WordAt(before, off + 4 * c);
    }
  }

  lemma AllMixed(k: Word, was: seq<bv8>, now: seq<bv8>, off: nat)
    requires off + 16 <= |was| == |now|
    requires Mixed(k, was, now, off, 4)
    ensures var s := StateAt(was, off);
            StateAt(now, off) == State(Times(k, s.c0), Times(k, s.c1), Times(k, s.c2), Times(k, s.c3))
  {
    hide Times, WordAt;
    forall c: nat | c < 4
      ensures WordAt(now, off + 4 * c) == Times(k, WordAt(was, off + 4 * c))
    {}
    assert WordAt(now, off + 4 * 0) == Times(k, WordAt(was, off + 4 * 0));
    assert WordAt(now, off + 4 * 1) == Times(k, WordAt(was, off + 4 * 1));
    assert WordAt(now, off + 4 * 2) == Times(k, WordAt(was, off + 4 * 2));
    assert WordAt(now, off + 4 * 3) == Times(k, WordAt(was, off + 4 * 3));
  }

  method MixColumns(buf: array<bv8>, off: nat)
    requires off + 16 <= buf.Length
    modifies buf
    ensures StateAt(buf[..], off) == AesSpec.MixColumns(old(StateAt(buf[..], off)))
    ensures SameOutside(old(buf[..]), buf[..], off)
  {
    hide Add, XTime, Times;
    ghost var was := buf[..];
    for i := 0 to 4
      invariant Mixed(MIX, was, buf[..], off, i)
    {
      var p := off + 4 * i;
      ghost var before := buf[..];
      MixWord(WordAt(before, p));
      var t := buf[p];
      var sum := Add(Add(Add(buf[p], buf[p + 1]), buf[p + 2]), buf[p + 3]);
      buf[p] := Add(buf[p], Add(XTime(Add(buf[p], buf[p + 1])), sum));
      buf[p + 1] := Add(buf[p + 1], Add(XTime(Add(buf[p + 1], buf[p + 2])), sum));
      buf[p + 2] := Add(buf[p + 2], Add(XTime(Add(buf[p + 2], buf[p + 3])), sum));
      buf[p + 3] := Add(buf[p + 3], Add(XTime(Add(buf[p + 3], t)), sum));
      MixedNext(MIX, was, before, buf[..], off, i);
    }
    AllMixed(MIX, was, buf[..], off);
  }

  /** Bit n of y times x. */
  function BitTimes(y: bv8, n: nat, x: bv8): bv8
    requires n < 8
  {
    ((y >> n) & 1) * x
  }

  /** The macro Multiply: the product with a factor below 32. */
  function Multiply(x: bv8, y: bv8): bv8 {
    Add(Add(Add(Add(BitTimes(y, 0, x),
                    BitTimes(y, 1, XTime(x))),
                BitTimes(y, 2, XTime(XTime(x)))),
            BitTimes(y, 3, XTime(XTime(XTime(x))))),
        BitTimes(y, 4, XTime(XTime(XTime(XTime(x))))))
  }

  lemma BitTimesIsTerm(y: bv8, x: bv8)
    ensures BitTimes(y, 0, x) == Term(x, y, 0x01) && BitTimes(y, 1, x) == Term(x, y, 0x02)
    ensures BitTimes(y, 2, x) == Term(x, y, 0x04)
  {}

  lemma BitTimesIsTermHigh(y: bv8, x: bv8)
    ensures BitTimes(y, 3, x) == Term(x, y, 0x08)
    ensures BitTimes(y, 4, x) == Term(x, y, 0x10)
  {}

  lemma MultiplyIsGfMul(x: bv8, y: bv8)
    requires y < 32
    ensures Multiply(x, y) == GfMul(x, y)
  {
    hide Add, Term, XTime, GfMul, BitTimes;
    var x2, x4, x8, x16 := XTime(x), XTime(XTime(x)), XTime(XTime(XTime(x))), XTime(XTime(XTime(XTime(x))));
    GfMulUnfold(x, y);
    BitTimesIsTerm(y, x);
    BitTimesIsTerm(y, x2);
    BitTimesIsTerm(y, x4);
    BitTimesIsTermHigh(y, x8);
    BitTimesIsTermHigh(y, x16);
    AddAssoc(Add(Term(x, y, 0x01), Term(x2, y, 0x02)), Term(x4, y, 0x04), Term(x8, y, 0x08));
  }

  method InvMixColumns(buf: array<bv8>, off: nat)
    requires off + 16 <= buf.Length
    modifies buf
    ensures StateAt(buf[..], off) == AesSpec.InvMixColumns(old(StateAt(buf[..], off)))
    ensures SameOutside(old(buf[..]), buf[..], off)
  {
    hide Multiply, Times, Add;
    ghost var was := buf[..];
    for i := 0 to 4
      invariant Mixed(INV_MIX, was, buf[..], off, i)
    {
      var p := off + 4 * i;
      ghost var before := buf[..];
      var a, b, c, d := buf[p], buf[p + 1], buf[p + 2], buf[p + 3];
      InvMixWord(a, b, c, d);
      buf[p] := Add(Add(Add(Multiply(a, 0x0e), Multiply(b, 0x0b)), Multiply(c, 0x0d)), Multiply(d, 0x09));
      buf[p + 1] := Add(Add(Add(Multiply(a, 0x09), Multiply(b, 0x0e)), Multiply(c, 0x0b)), Multiply(d, 0x0d));
      buf[p + 2] := Add(Add(Add(Multiply(a, 0x0d), Multiply(b, 0x09)), Multiply(c, 0x0e)), Multiply(d, 0x0b));
      buf[p + 3] := Add(Add(Add(Multiply(a, 0x0b), Multiply(b, 0x0d)), Multiply(c, 0x09)), Multiply(d, 0x0e));
      MixedNext(INV_MIX, was, before, buf[..], off, i);
    }
    AllMixed(INV_MIX, was, buf[..], off);
  }

  lemma InvMixWord(a: bv8, b: bv8, c: bv8, d: bv8)
    ensures Times(INV_MIX, Word(a, b, c, d)) == Word(
      Add(Add(Add(Multiply(a, 0x0e), Multiply(b, 0x0b)), Multiply(c, 0x0d)), Multiply(d, 0x09)),
      Add(Add(Add(Multiply(a, 0x09), Multiply(b, 0x0e)), Multiply(c, 0x0b)), Multiply(d, 0x0d)),
      Add(Add(Add(Multiply(a, 0x0d), Multiply(b, 0x09)), Multiply(c, 0x0e)), Multiply(d, 0x0b)),
      Add(Add(Add(Multiply(a, 0x0b), Multiply(b, 0x0d)), Multiply(c, 0x09)), Multiply(d, 0x0e)))
  {
    hide Multiply, Add, GfMul;
    forall x: bv8, k: bv8 {:trigger Multiply(x, k)} {:trigger GfMul(x, k)} | k < 32
      ensures Multiply(x, k) == GfMul(x, k)
    {
      MultiplyIsGfMul(x, k);
    }
    forall x, y, z, u {:trigger Add(Add(Add(x, y), z), u)}
      ensures Add(Add(Add(x, y), z), u) == Sum(x, y, z, u)
    {
      AddAssoc(Add(x, y), z, u);
    }
    Rotate(GfMul(b, 0x0e), GfMul(c, 0x0b), GfMul(d, 0x0d), GfMul(a, 0x09));
    Rotate(GfMul(c, 0x0e), GfMul(d, 0x0b), GfMul(a, 0x0d), GfMul(b, 0x09));
    Rotate(GfMul(b, 0x09), GfMul(c, 0x0e), GfMul(d, 0x0b), GfMul(a, 0x0d));
    Rotate(GfMul(d, 0x0e), GfMul(a, 0x0b), GfMul(b, 0x0d), GfMul(c, 0x09));
    Rotate(GfMul(c, 0x09), GfMul(d, 0x0e), GfMul(a, 0x0b), GfMul(b, 0x0d));
    Rotate(GfMul(b, 0x0d), GfMul(c, 0x09), GfMul(d, 0x0e), GfMul(a, 0x0b));
  }

  method Cipher(buf: array<bv8>, off: nat, roundKey: array<bv8>)
    requires off + 16 <= buf.Length && roundKey.Length == 240 && buf != roundKey
    modifies buf
    ensures StateAt(buf[..], off) == AesSpec.Cipher(roundKey[..], old(StateAt(buf[..], off)))
    ensures SameOutside(old(buf[..]), buf[..], off)
  {
    hide AesSpec.SubBytes, AesSpec.ShiftRows, AesSpec.MixColumns, Xor, StateAt, RoundKey;
    ghost var start := Xor(StateAt(buf[..], off), RoundKey(roundKey[..], 0));
    AddRoundKey(0, buf, off, roundKey);
    for round := 1 to 14
      invariant StateAt(buf[..], off) == Rounds(roundKey[..], round - 1, start)
      invariant SameOutside(old(buf[..]), buf[..], off)
    {
      SubBytes(buf, off);
      ShiftRows(buf, off);
      MixColumns(buf, off);
      AddRoundKey(round, buf, off, roundKey);
    }
    SubBytes(buf, off);
    ShiftRows(buf, off);
    AddRoundKey(14, buf, off, roundKey);
  }

  method InvCipher(buf: array<bv8>, off: nat, roundKey: array<bv8>)
    requires off + 16 <= buf.Length && roundKey.Length == 240 && buf != roundKey
    modifies buf
    ensures StateAt(buf[..], off) == AesSpec.InvCipher(roundKey[..], old(StateAt(buf[..], off)))
    ensures SameOutside(old(buf[..]), buf[..], off)
  {
    hide AesSpec.InvSubBytes, AesSpec.InvShiftRows, AesSpec.InvMixColumns, Xor, StateAt, RoundKey;
    ghost var start := Xor(StateAt(buf[..], off), RoundKey(roundKey[..], 14));
    AddRoundKey(14, buf, off, roundKey);
    var round := 13;
    while round > 0
      invariant round <= 13
      invariant InvRounds(roundKey[..], round, StateAt(buf[..], off)) == InvRounds(roundKey[..], 13, start)
      invariant SameOutside(old(buf[..]), buf[..], off)
    {
      InvShiftRows(buf, off);
      InvSubBytes(buf, off);
      AddRoundKey(round, buf, off, roundKey);
      InvMixColumns(buf, off);
      round := round - 1;
    }
    InvShiftRows(buf, off);
    InvSubBytes(buf, off);
    AddRoundKey(0, buf, off, roundKey);
  }
}
