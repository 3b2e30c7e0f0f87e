/** The block function of sha256.cpp: the message schedule lives in a window of 16 words, and the eight
    working variables are never moved but addressed through a rotating index. */
module Sha256Block {
  import opened Sha256Spec

  /** The element of the register file that the macro B(x, i) names. */
  function B(x: nat, i: nat): (k: nat)
    requires x < 8
    ensures k < 8
  {
    if x >= i % 8 then x - i % 8 else x + 8 - i % 8
  }

  /** The element of the window that the macro P(i, y) names. */
  function P(i: nat, y: nat): (k: nat)
    ensures k < 16
  {
    (i + y) % 16
  }

  /** The forms in which the code writes Ch and Maj. */
  function ChCode(e: bv32, f: bv32, g: bv32): bv32 {
    g ^ (e & (f ^ g))
  }

  function MajCode(a: bv32, b: bv32, c: bv32): bv32 {
    (a & b) | (c & (a ^ b))
  }

  lemma ChXor(x: bv32, y: bv32, z: bv32)
    ensures z ^ (x & (y ^ z)) == (x & y) ^ (!x & z)
  {}

  lemma MajXor(x: bv32, y: bv32, z: bv32)
    ensures (x & y) | (z & (x ^ y)) == (x & y) ^ (x & z) ^ (y & z)
  {}

  lemma ChMaj(x: bv32, y: bv32, z: bv32)
    ensures ChCode(x, y, z) == Ch(x, y, z) && MajCode(x, y, z) == Maj(x, y, z)
  {
    ChXor(x, y, z);
    MajXor(x, y, z);
  }

  /** The working variables before round t, as the register file b holds them. */
  function View(b: seq<bv32>, t: nat): Regs
    requires |b| == 8
  {
    Regs(b[B(0, t)], b[B(1, t)], b[B(2, t)], b[B(3, t)], b[B(4, t)], b[B(5, t)], b[B(6, t)], b[B(7, t)])
  }

  function Max(a: nat, b: nat): nat {
    if a < b then b else a
  }

  /** The window holds the schedule words that round t and the rounds after it read. */
  ghost predicate Window(p: seq<bv32>, block: BlockWords, t: nat) {
    |p| == 16 && forall m | Max(t, 16) - 16 <= m < Max(t, 16) :: p[m % 16] == W(block, m)
  }

  /** The window word of this round. */
  method Schedule(p: array<bv32>, i: nat, j: nat, ghost block: BlockWords)
    requires p.Length == 16 && i < 16 && j % 16 == 0 && i + j < 64
    requires Window(p[..], block, i + j)
    modifies p
    ensures Window(p[..], block, i + j + 1) && p[i] == W(block, i + j)
  {
    hide Plus, Sigma0, Sigma1, W, Window, P;
    if j == 0 {
      WindowFirst(p[..], block, i);
    } else {
      WindowStep(p[..], block, i + j);
      PSame(i, j);
      ghost var was := p[..];
      p[i % 16] := Plus(p[i % 16], Plus(Plus(Sigma1(p[P(i, 14)]), p[P(i, 9)]), Sigma0(p[P(i, 1)])));
      assert p[..] == was[i % 16 := p[i % 16]];
    }
  }

  /** One round. */
  method Rtrf(b: array<bv32>, p: array<bv32>, i: nat, j: nat, ghost block: BlockWords)
    requires b.Length == 8 && p.Length == 16 && b != p
    requires i < 16 && j % 16 == 0 && i + j < 64
    requires Window(p[..], block, i + j)
    modifies b, p
    ensures Window(p[..], block, i + j + 1)
    ensures View(b[..], i + j + 1) == Round(old(View(b[..], i + j)), RoundConstant(i + j), W(block, i + j))
  {
    hide Plus, BigSigma0, BigSigma1, ChCode, MajCode, W, Window, B, View, Round, RoundConstant;
    ghost var t, was := i + j, b[..];
    Schedule(p, i, j, block);
    BSame(i, j);
    BNext(t);
    RoundStep(was, t, RoundConstant(t), p[i]);
    b[B(7, i)] := Plus(b[B(7, i)], Plus(Plus(Plus(p[i], RoundConstant(i + j)), BigSigma1(b[B(4, i)])), ChCode(b[B(4, i)], b[B(5, i)], b[B(6, i)])));
    b[B(3, i)] := Plus(b[B(3, i)], b[B(7, i)]);
    b[B(7, i)] := Plus(b[B(7, i)], Plus(BigSigma0(b[B(0, i)]), MajCode(b[B(0, i)], b[B(1, i)], b[B(2, i)])));
    ghost var h := Plus(was[B(7, t)], Plus(Plus(Plus(p[i], RoundConstant(t)), BigSigma1(was[B(4, t)])), ChCode(was[B(4, t)], was[B(5, t)], was[B(6, t)])));
    assert b[..] == was[B(3, t) := Plus(was[B(3, t)], h)]
                       [B(7, t) := Plus(h, Plus(BigSigma0(was[B(0, t)]), MajCode(was[B(0, t)], was[B(1, t)], was[B(2, t)])))];
  }

  /** The two changed registers, seen from the next round, are the working variables after this one. */
  lemma RoundStep(b: seq<bv32>, t: nat, k: bv32, w: bv32)
    requires |b| == 8
    ensures var h := Plus(b[B(7, t)], Plus(Plus(Plus(w, k), BigSigma1(b[B(4, t)])), ChCode(b[B(4, t)], b[B(5, t)], b[B(6, t)])));
            var b' := b[B(3, t) := Plus(b[B(3, t)], h)]
                       [B(7, t) := Plus(h, Plus(BigSigma0(b[B(0, t)]), MajCode(b[B(0, t)], b[B(1, t)], b[B(2, t)])))];
            View(b', t + 1) == Round(View(b, t), k, w)
  {
    hide Plus, BigSigma0, BigSigma1, Ch, Maj, ChCode, MajCode, B;
    var r := View(b, t);
    BNext(t);
    ChMaj(r.e, r.f, r.g);
    ChMaj(r.a, r.b, r.c);
  }

  lemma ModSame(a: nat, j: nat)
    requires j % 16 == 0
    ensures (a + j) % 16 == a % 16
  {}

  lemma PSame(i: nat, j: nat)
    requires j % 16 == 0
    ensures i % 16 == (i + j) % 16
    ensures P(i, 14) == (i + j + 14) % 16 && P(i, 9) == (i + j + 9) % 16 && P(i, 1) == (i + j + 1) % 16
  {
    ModSame(i, j);
    ModSame(i + 14, j);
    ModSame(i + 9, j);
    ModSame(i + 1, j);
  }

  lemma BSame(i: nat, j: nat)
    requires j % 16 == 0
    ensures forall x | 0 <= x < 8 :: B(x, i) == B(x, i + j)
  {
    ModSame8(i, j / 8);
    assert j == 8 * (j / 8);
  }

  lemma ModSame8(i: nat, q: nat)
    ensures (i + 8 * q) % 8 == i % 8
  {}

  /** The registers of round t + 1 are those of round t, renamed. */
  lemma BNext(t: nat)
    ensures B(0, t + 1) == B(7, t)
    ensures B(1, t + 1) == B(0, t) && B(2, t + 1) == B(1, t) && B(3, t + 1) == B(2, t) && B(4, t + 1) == B(3, t)
    ensures B(5, t + 1) == B(4, t) && B(6, t + 1) == B(5, t) && B(7, t + 1) == B(6, t)
    ensures forall x, y | 0 <= x < y < 8 :: B(x, t) != B(y, t)
  {
    assert (t + 1) % 8 == if t % 8 == 7 then 0 else t % 8 + 1;
  }

  lemma WNext(block: BlockWords, t: nat)
    requires t >= 16
    ensures W(block, t) ==
      Plus(W(block, t - 16), Plus(Plus(Sigma1(W(block, t - 2)), W(block, t - 7)), Sigma0(W(block, t - 15))))
  {}

  lemma Apart(m: nat, t: nat)
    requires m < t < m + 16
    ensures m % 16 != t % 16
  {}

  /** In the first 16 rounds the window is the block. */
  lemma WindowFirst(p: seq<bv32>, block: BlockWords, t: nat)
    requires Window(p, block, t) && t < 16
    ensures p[t] == W(block, t) && Window(p, block, t + 1)
  {
    hide W;
    assert p[t % 16] == W(block, t);
  }

  /** Later a round replaces the word of 16 rounds ago. */
  lemma WindowStep(p: seq<bv32>, block: BlockWords, t: nat)
    requires Window(p, block, t) && t >= 16
    ensures var w := Plus(p[t % 16], Plus(Plus(Sigma1(p[(t + 14) % 16]), p[(t + 9) % 16]), Sigma0(p[(t + 1) % 16])));
            w == W(block, t) && Window(p[t % 16 := w], block, t + 1)
  {
    hide Plus, Sigma0, Sigma1, W;
    var w := Plus(p[t % 16], Plus(Plus(Sigma1(p[(t + 14) % 16]), p[(t + 9) % 16]), Sigma0(p[(t + 1) % 16])));
    assert (t + 14) % 16 == (t - 2) % 16 && (t + 9) % 16 == (t - 7) % 16 && (t + 1) % 16 == (t - 15) % 16;
    assert t % 16 == (t - 16) % 16;
    WNext(block, t);
    forall m: nat | t - 15 <= m < t + 1
      ensures p[t % 16 := w][m % 16] == W(block, m)
    {
      if m < t {
        Apart(m, t);
      }
    }
  }
}
