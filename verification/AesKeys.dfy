/** The key expansion of aes256.cpp: section 5.2 of FIPS 197 for keys of eight words. */
module AesKeys {
  import opened ByteXor
  import opened AesSpec

  type Key = s: seq<bv8> | |s| == 32 witness seq(32, _ => 0)

  /** The round constants: powers of x in GF(2^8). */
  function Rcon(i: nat): bv8
    requires 1 <= i <= 7
  {
    if i == 1 then 0x01 else if i == 2 then 0x02 else if i == 3 then 0x04 else if i == 4 then 0x08
    else if i == 5 then 0x10 else if i == 6 then 0x20 else 0x40
  }

  function RotWord(w: Word): Word {
    Word(w.k1, w.k2, w.k3, w.k0)
  }

  /** What the word in front contributes to word i. */
  function Stirred(i: nat, w: Word): Word
    requires 8 <= i < 60
  {
    if i % 8 == 0 then XorWord(SubWord(RotWord(w)), Word(Rcon(i / 8), 0, 0, 0))
    else if i % 8 == 4 then SubWord(w)
    else w
  }

  function ExpandedWord(key: Key, i: nat): Word
    requires i < 60
  {
    if i < 8 then WordAt(key, 4 * i)
    else XorWord(ExpandedWord(key, i - 8), Stirred(i, ExpandedWord(key, i - 1)))
  }

  function ByteOf(w: Word, n: nat): bv8
    requires n < 4
  {
    if n == 0 then w.k0 else if n == 1 then w.k1 else if n == 2 then w.k2 else w.k3
  }

  /** The round keys of a key, byte by byte. */
  function Expand(key: Key): RoundKeys {
    seq(240, k requires 0 <= k < 240 => ByteOf(ExpandedWord(key, k / 4), k % 4))
  }

  /** Every constant is x times the one before. */
  lemma RconPowers(i: nat)
    requires 1 <= i < 7
    ensures Rcon(1) == 1 && Rcon(i + 1) == XTime(Rcon(i))
  {
  }

  /** Words 4 * round to 4 * round + 3 are the round's key. */
  lemma RoundKeyWords(key: Key, round: nat)
    requires round <= 14
    ensures RoundKey(Expand(key), round)
         == State(ExpandedWord(key, 4 * round), ExpandedWord(key, 4 * round + 1), ExpandedWord(key, 4 * round + 2), ExpandedWord(key, 4 * round + 3))
  {
    hide ExpandedWord;
    ExpandAt(key, 4 * round);
    ExpandAt(key, 4 * round + 1);
    ExpandAt(key, 4 * round + 2);
    ExpandAt(key, 4 * round + 3);
  }

  lemma ExpandAt(key: Key, i: nat)
    requires i < 60
    ensures WordAt(Expand(key), 4 * i) == ExpandedWord(key, i)
  {
    hide ExpandedWord;
    var w := Expand(key);
    Quotients(i, 0);
    Quotients(i, 1);
    Quotients(i, 2);
    Quotients(i, 3);
    assert w[4 * i] == ByteOf(ExpandedWord(key, i), 0) && w[4 * i + 1] == ByteOf(ExpandedWord(key, i), 1);
    assert w[4 * i + 2] == ByteOf(ExpandedWord(key, i), 2) && w[4 * i + 3] == ByteOf(ExpandedWord(key, i), 3);
  }

  lemma Quotients(i: nat, n: nat)
    requires n < 4
    ensures (4 * i + n) / 4 == i && (4 * i + n) % 4 == n
  {
  }

  /** The words from 0 to n - 1 are in place. */
  ghost predicate Placed(roundKey: seq<bv8>, key: Key, n: nat)
    requires n <= 60
  {
    |roundKey| == 240 && forall i: nat | i < n :: WordAt(roundKey, 4 * i) == ExpandedWord(key, i)
  }

  lemma PlacedOne(before: seq<bv8>, after: seq<bv8>, key: Key, n: nat)
    requires n < 60 && Placed(before, key, n) && |after| == 240
    requires forall k | 0 <= k < 4 * n :: after[k] == before[k]
    requires WordAt(after, 4 * n) == ExpandedWord(key, n)
    ensures Placed(after, key, n + 1)
  {
    hide ExpandedWord;
    forall i: nat | i < n + 1
      ensures WordAt(after, 4 * i) == ExpandedWord(key, i)
    {
      if i < n {
        assert WordAt(after, 4 * i) == WordAt(before, 4 * i);
      }
    }
  }

  lemma AllPlaced(roundKey: seq<bv8>, key: Key)
    requires Placed(roundKey, key, 60)
    ensures roundKey == Expand(key)
  {
    hide ExpandedWord;
    forall k | 0 <= k < 240
      ensures roundKey[k] == Expand(key)[k]
    {
      var i, n := k / 4, k % 4;
      assert k == 4 * i + n;
      assert WordAt(roundKey, 4 * i) == ExpandedWord(key, i);
    }
  }

  method StoreWord(roundKey: array<bv8>, i: nat, w: Word)
    requires roundKey.Length == 240 && i < 60
    modifies roundKey
    ensures WordAt(roundKey[..], 4 * i) == w
    ensures forall k | 0 <= k < 240 && !(4 * i <= k < 4 * i + 4) :: roundKey[k] == old(roundKey[k])
  {
    roundKey[4 * i] := w.k0;
    roundKey[4 * i + 1] := w.k1;
    roundKey[4 * i + 2] := w.k2;
    roundKey[4 * i + 3] := w.k3;
  }

  /** What becomes of the four bytes tempa in one turn. */
  method Stir(i: nat, w: Word) returns (t: Word)
    requires 8 <= i < 60
    ensures t == Stirred(i, w)
  {
    hide SBox;
    var t0, t1, t2, t3 := w.k0, w.k1, w.k2, w.k3;
    if i % 8 == 0 {
      var k := t0;
      t0, t1, t2, t3 := t1, t2, t3, k;
      t0, t1, t2, t3 := SBox(t0), SBox(t1), SBox(t2), SBox(t3);
      t0 := Add(t0, Rcon(i / 8));
      XorNothing(t1, t2, t3);
    }
    if i % 8 == 4 {
      t0, t1, t2, t3 := SBox(t0), SBox(t1), SBox(t2), SBox(t3);
    }
    t := Word(t0, t1, t2, t3);
  }

  lemma XorNothing(a: bv8, b: bv8, c: bv8)
    ensures Add(a, 0) == a && Add(b, 0) == b && Add(c, 0) == c
  {
  }

  /** KeyExpansion. */
  method KeyExpansion(roundKey: array<bv8>, key: Key)
    requires roundKey.Length == 240
    modifies roundKey
    ensures roundKey[..] == Expand(key)
  {
    hide ExpandedWord, Placed, Stirred, WordAt, Expand, XorWord;
    var i := 0;
    NonePlaced(roundKey[..], key);
    while i < 8
      invariant 0 <= i <= 8 && Placed(roundKey[..], key, i)
    {
      ghost var before := roundKey[..];
      StoreWord(roundKey, i, WordAt(key, 4 * i));
      WordOfKey(key, i);
      PlacedOne(before, roundKey[..], key, i);
      i := i + 1;
    }
    while i < 60
      invariant 8 <= i <= 60 && Placed(roundKey[..], key, i)
    {
      ghost var before := roundKey[..];
      NextWord(before, key, i);
      var temp := Stir(i, WordAt(roundKey[..], 4 * (i - 1)));
      StoreWord(roundKey, i, XorWord(WordAt(roundKey[..], 4 * (i - 8)), temp));
      PlacedOne(before, roundKey[..], key, i);
      i := i + 1;
    }
    AllPlaced(roundKey[..], key);
  }

  lemma NonePlaced(roundKey: seq<bv8>, key: Key)
    requires |roundKey| == 240
    ensures Placed(roundKey, key, 0)
  {
  }

  lemma WordOfKey(key: Key, i: nat)
    requires i < 8
    ensures ExpandedWord(key, i) == WordAt(key, 4 * i)
  {
  }

  lemma NextWord(roundKey: seq<bv8>, key: Key, i: nat)
    requires 8 <= i < 60 && Placed(roundKey, key, i)
    ensures |roundKey| == 240
    ensures ExpandedWord(key, i) == XorWord(WordAt(roundKey, 4 * (i - 8)), Stirred(i, WordAt(roundKey, 4 * (i - 1))))
  {
    hide Stirred, WordAt, XorWord;
  }
}
