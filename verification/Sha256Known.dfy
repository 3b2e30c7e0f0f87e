/** The constants of sha256.cpp against their definition, and the digest of an example. */
module Sha256Known {
  import opened Sha256Spec

  // ---------- Constants (sections 4.2.2 and 5.3.3 of FIPS 180-4) ----------

  function PickNat(i: nat, a: nat, b: nat, c: nat, d: nat, e: nat, f: nat, g: nat, h: nat): nat {
    if i == 0 then a else if i == 1 then b else if i == 2 then c else if i == 3 then d
    else if i == 4 then e else if i == 5 then f else if i == 6 then g else h
  }

  /** The first 64 primes. */
  function Prime(t: nat): nat
    requires t < 64
  {
    var i := t % 8;
    if t < 8 then PickNat(i, 2, 3, 5, 7, 11, 13, 17, 19) else
    if t < 16 then PickNat(i, 23, 29, 31, 37, 41, 43, 47, 53) else
    if t < 24 then PickNat(i, 59, 61, 67, 71, 73, 79, 83, 89) else
    if t < 32 then PickNat(i, 97, 101, 103, 107, 109, 113, 127, 131) else
    if t < 40 then PickNat(i, 137, 139, 149, 151, 157, 163, 167, 173) else
    if t < 48 then PickNat(i, 179, 181, 191, 193, 197, 199, 211, 223) else
    if t < 56 then PickNat(i, 227, 229, 233, 239, 241, 251, 257, 263) else
    PickNat(i, 269, 271, 277, 281, 283, 293, 307, 311)
  }

  /** Their cube roots, cut off behind 32 binary places. */
  function CubeRoot(t: nat): nat
    requires t < 64
  {
    var i := t % 8;
    if t < 8 then PickNat(i, 0x1_428a2f98, 0x1_71374491, 0x1_b5c0fbcf, 0x1_e9b5dba5, 0x2_3956c25b, 0x2_59f111f1, 0x2_923f82a4, 0x2_ab1c5ed5) else
    if t < 16 then PickNat(i, 0x2_d807aa98, 0x3_12835b01, 0x3_243185be, 0x3_550c7dc3, 0x3_72be5d74, 0x3_80deb1fe, 0x3_9bdc06a7, 0x3_c19bf174) else
    if t < 24 then PickNat(i, 0x3_e49b69c1, 0x3_efbe4786, 0x4_0fc19dc6, 0x4_240ca1cc, 0x4_2de92c6f, 0x4_4a7484aa, 0x4_5cb0a9dc, 0x4_76f988da) else
    if t < 32 then PickNat(i, 0x4_983e5152, 0x4_a831c66d, 0x4_b00327c8, 0x4_bf597fc7, 0x4_c6e00bf3, 0x4_d5a79147, 0x5_06ca6351, 0x5_14292967) else
    if t < 40 then PickNat(i, 0x5_27b70a85, 0x5_2e1b2138, 0x5_4d2c6dfc, 0x5_53380d13, 0x5_650a7354, 0x5_766a0abb, 0x5_81c2c92e, 0x5_92722c85) else
    if t < 48 then PickNat(i, 0x5_a2bfe8a1, 0x5_a81a664b, 0x5_c24b8b70, 0x5_c76c51a3, 0x5_d192e819, 0x5_d6990624, 0x5_f40e3585, 0x6_106aa070) else
    if t < 56 then PickNat(i, 0x6_19a4c116, 0x6_1e376c08, 0x6_2748774c, 0x6_34b0bcb5, 0x6_391c0cb3, 0x6_4ed8aa4a, 0x6_5b9cca4f, 0x6_682e6ff3) else
    PickNat(i, 0x6_748f82ee, 0x6_78a5636f, 0x6_84c87814, 0x6_8cc70208, 0x6_90befffa, 0x6_a4506ceb, 0x6_bef9a3f7, 0x6_c67178f2)
  }

  /** The square roots of the first eight. */
  function SquareRoot(k: nat): nat
    requires k < 8
  {
    PickNat(k, 0x1_6a09e667, 0x1_bb67ae85, 0x2_3c6ef372, 0x2_a54ff53a, 0x3_510e527f, 0x3_9b05688c, 0x4_1f83d9ab, 0x4_5be0cd19)
  }

  predicate IsCubeRoot(a: nat, p: nat) {
    a * a * a <= p * 0x1_00000000_00000000_00000000 < (a + 1) * (a + 1) * (a + 1)
  }

  predicate IsSquareRoot(a: nat, p: nat) {
    a * a <= p * 0x1_00000000_00000000 < (a + 1) * (a + 1)
  }

  /** The first 32 places behind the point. */
  predicate IsFraction(k: bv32, a: nat) {
    k as nat == a % 0x1_0000_0000
  }

  lemma CubeRootsOfRow0(t: nat)
    requires 0 <= t < 8
    ensures IsCubeRoot(CubeRoot(t), Prime(t)) && IsFraction(RoundConstant(t), CubeRoot(t))
  {
  }

  lemma CubeRootsOfRow1(t: nat)
    requires 8 <= t < 16
    ensures IsCubeRoot(CubeRoot(t), Prime(t)) && IsFraction(RoundConstant(t), CubeRoot(t))
  {
  }

  lemma CubeRootsOfRow2(t: nat)
    requires 16 <= t < 24
    ensures IsCubeRoot(CubeRoot(t), Prime(t)) && IsFraction(RoundConstant(t), CubeRoot(t))
  {
  }

  lemma CubeRootsOfRow3(t: nat)
    requires 24 <= t < 32
    ensures IsCubeRoot(CubeRoot(t), Prime(t)) && IsFraction(RoundConstant(t), CubeRoot(t))
  {
  }

  lemma CubeRootsOfRow4(t: nat)
    requires 32 <= t < 40
    ensures IsCubeRoot(CubeRoot(t), Prime(t)) && IsFraction(RoundConstant(t), CubeRoot(t))
  {
  }

  lemma CubeRootsOfRow5(t: nat)
    requires 40 <= t < 48
    ensures IsCubeRoot(CubeRoot(t), Prime(t)) && IsFraction(RoundConstant(t), CubeRoot(t))
  {
  }

  lemma CubeRootsOfRow6(t: nat)
    requires 48 <= t < 56
    ensures IsCubeRoot(CubeRoot(t), Prime(t)) && IsFraction(RoundConstant(t), CubeRoot(t))
  {
  }

  lemma CubeRootsOfRow7(t: nat)
    requires 56 <= t < 64
    ensures IsCubeRoot(CubeRoot(t), Prime(t)) && IsFraction(RoundConstant(t), CubeRoot(t))
  {
  }

  /** Every round constant is the fraction of the cube root of its prime. */
  lemma RoundConstants(t: nat)
    requires t < 64
    ensures IsCubeRoot(CubeRoot(t), Prime(t)) && IsFraction(RoundConstant(t), CubeRoot(t))
  {
    hide CubeRoot, Prime, RoundConstant, IsCubeRoot, IsFraction;
    match t / 8
    case 0 => CubeRootsOfRow0(t);
    case 1 => CubeRootsOfRow1(t);
    case 2 => CubeRootsOfRow2(t);
    case 3 => CubeRootsOfRow3(t);
    case 4 => CubeRootsOfRow4(t);
    case 5 => CubeRootsOfRow5(t);
    case 6 => CubeRootsOfRow6(t);
    case _ => CubeRootsOfRow7(t);
  }

  /** Every initial register is the fraction of the square root of its prime. */
  lemma InitialRegisters(k: nat)
    requires k < 8
    ensures IsSquareRoot(SquareRoot(k), Prime(k)) && IsFraction(Reg(INITIAL, k), SquareRoot(k))
  {
  }

  // ---------- The digest of the three bytes abc ----------

  /** The block: the message, the bit 1, zeros and the length. */
  predicate IsAbc(block: BlockWords) {
    block[0] == 0x61626380 && (forall i | 1 <= i < 15 :: block[i] == 0) && block[15] == 0x18
  }

  lemma WordStep(block: BlockWords, t: nat, w16: bv32, w15: bv32, w7: bv32, w2: bv32, w: bv32)
    requires t >= 16 && W(block, t - 16) == w16 && W(block, t - 15) == w15 && W(block, t - 7) == w7 && W(block, t - 2) == w2
    requires Plus(w16, Plus(Plus(Sigma1(w2), w7), Sigma0(w15))) == w
    ensures W(block, t) == w
  {
    hide Plus, Sigma0, Sigma1;
  }

  lemma RoundStep(block: BlockWords, t: nat, w: bv32, r: Regs, next: Regs)
    requires t < 64 && Rounds(block, INITIAL, t) == r && W(block, t) == w && Round(r, RoundConstant(t), w) == next
    ensures Rounds(block, INITIAL, t + 1) == next
  {
    hide Round, W, RoundConstant;
  }

  lemma Words0(block: BlockWords)
    requires IsAbc(block)
    ensures W(block, 0) == 0x61626380 && W(block, 1) == 0x00000000 && W(block, 2) == 0x00000000 && W(block, 3) == 0x00000000
    ensures W(block, 4) == 0x00000000 && W(block, 5) == 0x00000000 && W(block, 6) == 0x00000000 && W(block, 7) == 0x00000000
    ensures W(block, 8) == 0x00000000 && W(block, 9) == 0x00000000 && W(block, 10) == 0x00000000 && W(block, 11) == 0x00000000
    ensures W(block, 12) == 0x00000000 && W(block, 13) == 0x00000000 && W(block, 14) == 0x00000000 && W(block, 15) == 0x00000018
  {
  }

  lemma Words16(block: BlockWords)
    requires W(block, 0) == 0x61626380 && W(block, 1) == 0x00000000 && W(block, 2) == 0x00000000 && W(block, 3) == 0x00000000
    requires W(block, 4) == 0x00000000 && W(block, 5) == 0x00000000 && W(block, 6) == 0x00000000 && W(block, 7) == 0x00000000
    requires W(block, 8) == 0x00000000 && W(block, 9) == 0x00000000 && W(block, 10) == 0x00000000 && W(block, 11) == 0x00000000
    requires W(block, 12) == 0x00000000 && W(block, 13) == 0x00000000 && W(block, 14) == 0x00000000 && W(block, 15) == 0x00000018
    ensures W(block, 16) == 0x61626380 && W(block, 17) == 0x000f0000 && W(block, 18) == 0x7da86405 && W(block, 19) == 0x600003c6
    ensures W(block, 20) == 0x3e9d7b78 && W(block, 21) == 0x0183fc00 && W(block, 22) == 0x12dcbfdb && W(block, 23) == 0xe2e2c38e
  {
    hide W;
    WordStep(block, 16, 0x61626380, 0x00000000, 0x00000000, 0x00000000, 0x61626380);
    WordStep(block, 17, 0x00000000, 0x00000000, 0x00000000, 0x00000018, 0x000f0000);
    WordStep(block, 18, 0x00000000, 0x00000000, 0x00000000, 0x61626380, 0x7da86405);
    WordStep(block, 19, 0x00000000, 0x00000000, 0x00000000, 0x000f0000, 0x600003c6);
    WordStep(block, 20, 0x00000000, 0x00000000, 0x00000000, 0x7da86405, 0x3e9d7b78);
    WordStep(block, 21, 0x00000000, 0x00000000, 0x00000000, 0x600003c6, 0x0183fc00);
    WordStep(block, 22, 0x00000000, 0x00000000, 0x00000018, 0x3e9d7b78, 0x12dcbfdb);
    WordStep(block, 23, 0x00000000, 0x00000000, 0x61626380, 0x0183fc00, 0xe2e2c38e);
  }

  lemma Words24(block: BlockWords)
    requires W(block, 8) == 0x00000000 && W(block, 9) == 0x00000000 && W(block, 10) == 0x00000000 && W(block, 11) == 0x00000000
    requires W(block, 12) == 0x00000000 && W(block, 13) == 0x00000000 && W(block, 14) == 0x00000000 && W(block, 15) == 0x00000018
    requires W(block, 16) == 0x61626380 && W(block, 17) == 0x000f0000 && W(block, 18) == 0x7da86405 && W(block, 19) == 0x600003c6
    requires W(block, 20) == 0x3e9d7b78 && W(block, 21) == 0x0183fc00 && W(block, 22) == 0x12dcbfdb && W(block, 23) == 0xe2e2c38e
    ensures W(block, 24) == 0xc8215c1a && W(block, 25) == 0xb73679a2 && W(block, 26) == 0xe5bc3909 && W(block, 27) == 0x32663c5b
    ensures W(block, 28) == 0x9d209d67 && W(block, 29) == 0xec8726cb && W(block, 30) == 0x702138a4 && W(block, 31) == 0xd3b7973b
  {
    hide W;
    WordStep(block, 24, 0x00000000, 0x00000000, 0x000f0000, 0x12dcbfdb, 0xc8215c1a);
    WordStep(block, 25, 0x00000000, 0x00000000, 0x7da86405, 0xe2e2c38e, 0xb73679a2);
    WordStep(block, 26, 0x00000000, 0x00000000, 0x600003c6, 0xc8215c1a, 0xe5bc3909);
    WordStep(block, 27, 0x00000000, 0x00000000, 0x3e9d7b78, 0xb73679a2, 0x32663c5b);
    WordStep(block, 28, 0x00000000, 0x00000000, 0x0183fc00, 0xe5bc3909, 0x9d209d67);
    WordStep(block, 29, 0x00000000, 0x00000000, 0x12dcbfdb, 0x32663c5b, 0xec8726cb);
    WordStep(block, 30, 0x00000000, 0x00000018, 0xe2e2c38e, 0x9d209d67, 0x702138a4);
    WordStep(block, 31, 0x00000018, 0x61626380, 0xc8215c1a, 0xec8726cb, 0xd3b7973b);
  }

  lemma Words32(block: BlockWords)
    requires W(block, 16) == 0x61626380 && W(block, 17) == 0x000f0000 && W(block, 18) == 0x7da86405 && W(block, 19) == 0x600003c6
    requires W(block, 20) == 0x3e9d7b78 && W(block, 21) == 0x0183fc00 && W(block, 22) == 0x12dcbfdb && W(block, 23) == 0xe2e2c38e
    requires W(block, 24) == 0xc8215c1a && W(block, 25) == 0xb73679a2 && W(block, 26) == 0xe5bc3909 && W(block, 27) == 0x32663c5b
    requires W(block, 28) == 0x9d209d67 && W(block, 29) == 0xec8726cb && W(block, 30) == 0x702138a4 && W(block, 31) == 0xd3b7973b
    ensures W(block, 32) == 0x93f5997f && W(block, 33) == 0x3b68ba73 && W(block, 34) == 0xaff4ffc1 && W(block, 35) == 0xf10a5c62
    ensures W(block, 36) == 0x0a8b3996 && W(block, 37) == 0x72af830a && W(block, 38) == 0x9409e33e && W(block, 39) == 0x24641522
  {
    hide W;
    WordStep(block, 32, 0x61626380, 0x000f0000, 0xb73679a2, 0x702138a4, 0x93f5997f);
    WordStep(block, 33, 0x000f0000, 0x7da86405, 0xe5bc3909, 0xd3b7973b, 0x3b68ba73);
    WordStep(block, 34, 0x7da86405, 0x600003c6, 0x32663c5b, 0x93f5997f, 0xaff4ffc1);
    WordStep(block, 35, 0x600003c6, 0x3e9d7b78, 0x9d209d67, 0x3b68ba73, 0xf10a5c62);
    WordStep(block, 36, 0x3e9d7b78, 0x0183fc00, 0xec8726cb, 0xaff4ffc1, 0x0a8b3996);
    WordStep(block, 37, 0x0183fc00, 0x12dcbfdb, 0x702138a4, 0xf10a5c62, 0x72af830a);
    WordStep(block, 38, 0x12dcbfdb, 0xe2e2c38e, 0xd3b7973b, 0x0a8b3996, 0x9409e33e);
    WordStep(block, 39, 0xe2e2c38e, 0xc8215c1a, 0x93f5997f, 0x72af830a, 0x24641522);
  }

  lemma Words40(block: BlockWords)
    requires W(block, 24) == 0xc8215c1a && W(block, 25) == 0xb73679a2 && W(block, 26) == 0xe5bc3909 && W(block, 27) == 0x32663c5b
    requires W(block, 28) == 0x9d209d67 && W(block, 29) == 0xec8726cb && W(block, 30) == 0x702138a4 && W(block, 31) == 0xd3b7973b
    requires W(block, 32) == 0x93f5997f && W(block, 33) == 0x3b68ba73 && W(block, 34) == 0xaff4ffc1 && W(block, 35) == 0xf10a5c62
    requires W(block, 36) == 0x0a8b3996 && W(block, 37) == 0x72af830a && W(block, 38) == 0x9409e33e && W(block, 39) == 0x24641522
    ensures W(block, 40) == 0x9f47bf94 && W(block, 41) == 0xf0a64f5a && W(block, 42) == 0x3e246a79 && W(block, 43) == 0x27333ba3
    ensures W(block, 44) == 0x0c4763f2 && W(block, 45) == 0x840abf27 && W(block, 46) == 0x7a290d5d && W(block, 47) == 0x065c43da
  {
    hide W;
    WordStep(block, 40, 0xc8215c1a, 0xb73679a2, 0x3b68ba73, 0x9409e33e, 0x9f47bf94);
    WordStep(block, 41, 0xb73679a2, 0xe5bc3909, 0xaff4ffc1, 0x24641522, 0xf0a64f5a);
    WordStep(block, 42, 0xe5bc3909, 0x32663c5b, 0xf10a5c62, 0x9f47bf94, 0x3e246a79);
    WordStep(block, 43, 0x32663c5b, 0x9d209d67, 0x0a8b3996, 0xf0a64f5a, 0x27333ba3);
    WordStep(block, 44, 0x9d209d67, 0xec8726cb, 0x72af830a, 0x3e246a79, 0x0c4763f2);
    WordStep(block, 45, 0xec8726cb, 0x702138a4, 0x9409e33e, 0x27333ba3, 0x840abf27);
    WordStep(block, 46, 0x702138a4, 0xd3b7973b, 0x24641522, 0x0c4763f2, 0x7a290d5d);
    WordStep(block, 47, 0xd3b7973b, 0x93f5997f, 0x9f47bf94, 0x840abf27, 0x065c43da);
  }

  lemma Words48(block: BlockWords)
    requires W(block, 32) == 0x93f5997f && W(block, 33) == 0x3b68ba73 && W(block, 34) == 0xaff4ffc1 && W(block, 35) == 0xf10a5c62
    requires W(block, 36) == 0x0a8b3996 && W(block, 37) == 0x72af830a && W(block, 38) == 0x9409e33e && W(block, 39) == 0x24641522
    requires W(block, 40) == 0x9f47bf94 && W(block, 41) == 0xf0a64f5a && W(block, 42) == 0x3e246a79 && W(block, 43) == 0x27333ba3
    requires W(block, 44) == 0x0c4763f2 && W(block, 45) == 0x840abf27 && W(block, 46) == 0x7a290d5d && W(block, 47) == 0x065c43da
    ensures W(block, 48) == 0xfb3e89cb && W(block, 49) == 0xcc7617db && W(block, 50) == 0xb9e66c34 && W(block, 51) == 0xa9993667
    ensures W(block, 52) == 0x84badedd && W(block, 53) == 0xc21462bc && W(block, 54) == 0x1487472c && W(block, 55) == 0xb20f7a99
  {
    hide W;
    WordStep(block, 48, 0x93f5997f, 0x3b68ba73, 0xf0a64f5a, 0x7a290d5d, 0xfb3e89cb);
    WordStep(block, 49, 0x3b68ba73, 0xaff4ffc1, 0x3e246a79, 0x065c43da, 0xcc7617db);
    WordStep(block, 50, 0xaff4ffc1, 0xf10a5c62, 0x27333ba3, 0xfb3e89cb, 0xb9e66c34);
    WordStep(block, 51, 0xf10a5c62, 0x0a8b3996, 0x0c4763f2, 0xcc7617db, 0xa9993667);
    WordStep(block, 52, 0x0a8b3996, 0x72af830a, 0x840abf27, 0xb9e66c34, 0x84badedd);
    WordStep(block, 53, 0x72af830a, 0x9409e33e, 0x7a290d5d, 0xa9993667, 0xc21462bc);
    WordStep(block, 54, 0x9409e33e, 0x24641522, 0x065c43da, 0x84badedd, 0x1487472c);
    WordStep(block, 55, 0x24641522, 0x9f47bf94, 0xfb3e89cb, 0xc21462bc, 0xb20f7a99);
  }

  lemma Words56(block: BlockWords)
    requires W(block, 40) == 0x9f47bf94 && W(block, 41) == 0xf0a64f5a && W(block, 42) == 0x3e246a79 && W(block, 43) == 0x27333ba3
    requires W(block, 44) == 0x0c4763f2 && W(block, 45) == 0x840abf27 && W(block, 46) == 0x7a290d5d && W(block, 47) == 0x065c43da
    requires W(block, 48) == 0xfb3e89cb && W(block, 49) == 0xcc7617db && W(block, 50) == 0xb9e66c34 && W(block, 51) == 0xa9993667
    requires W(block, 52) == 0x84badedd && W(block, 53) == 0xc21462bc && W(block, 54) == 0x1487472c && W(block, 55) == 0xb20f7a99
    ensures W(block, 56) == 0xef57b9cd && W(block, 57) == 0xebe6b238 && W(block, 58) == 0x9fe3095e && W(block, 59) == 0x78bc8d4b
    ensures W(block, 60) == 0xa43fcf15 && W(block, 61) == 0x668b2ff8 && W(block, 62) == 0xeeaba2cc && W(block, 63) == 0x12b1edeb
  {
    hide W;
    WordStep(block, 56, 0x9f47bf94, 0xf0a64f5a, 0xcc7617db, 0x1487472c, 0xef57b9cd);
    WordStep(block, 57, 0xf0a64f5a, 0x3e246a79, 0xb9e66c34, 0xb20f7a99, 0xebe6b238);
    WordStep(block, 58, 0x3e246a79, 0x27333ba3, 0xa9993667, 0xef57b9cd, 0x9fe3095e);
    WordStep(block, 59, 0x27333ba3, 0x0c4763f2, 0x84badedd, 0xebe6b238, 0x78bc8d4b);
    WordStep(block, 60, 0x0c4763f2, 0x840abf27, 0xc21462bc, 0x9fe3095e, 0xa43fcf15);
    WordStep(block, 61, 0x840abf27, 0x7a290d5d, 0x1487472c, 0x78bc8d4b, 0x668b2ff8);
    WordStep(block, 62, 0x7a290d5d, 0x065c43da, 0xb20f7a99, 0xa43fcf15, 0xeeaba2cc);
    WordStep(block, 63, 0x065c43da, 0xfb3e89cb, 0xef57b9cd, 0x668b2ff8, 0x12b1edeb);
  }

  lemma Rounds0(block: BlockWords)
    requires Rounds(block, INITIAL, 0) == Regs(0x6a09e667, 0xbb67ae85, 0x3c6ef372, 0xa54ff53a, 0x510e527f, 0x9b05688c, 0x1f83d9ab, 0x5be0cd19)
    requires W(block, 0) == 0x61626380 && W(block, 1) == 0x00000000 && W(block, 2) == 0x00000000 && W(block, 3) == 0x00000000
    ensures Rounds(block, INITIAL, 4) == Regs(0xd550f666, 0xc8c347a7, 0x5a6ad9ad, 0x5d6aebcd, 0x24e00850, 0xf92939eb, 0x78ce7989, 0xfa2a4622)
  {
    hide W, Rounds;
    RoundStep(block, 0, 0x61626380, Regs(0x6a09e667, 0xbb67ae85, 0x3c6ef372, 0xa54ff53a, 0x510e527f, 0x9b05688c, 0x1f83d9ab, 0x5be0cd19), Regs(0x5d6aebcd, 0x6a09e667, 0xbb67ae85, 0x3c6ef372, 0xfa2a4622, 0x510e527f, 0x9b05688c, 0x1f83d9ab));
    RoundStep(block, 1, 0x00000000, Regs(0x5d6aebcd, 0x6a09e667, 0xbb67ae85, 0x3c6ef372, 0xfa2a4622, 0x510e527f, 0x9b05688c, 0x1f83d9ab), Regs(0x5a6ad9ad, 0x5d6aebcd, 0x6a09e667, 0xbb67ae85, 0x78ce7989, 0xfa2a4622, 0x510e527f, 0x9b05688c));
    RoundStep(block, 2, 0x00000000, Regs(0x5a6ad9ad, 0x5d6aebcd, 0x6a09e667, 0xbb67ae85, 0x78ce7989, 0xfa2a4622, 0x510e527f, 0x9b05688c), Regs(0xc8c347a7, 0x5a6ad9ad, 0x5d6aebcd, 0x6a09e667, 0xf92939eb, 0x78ce7989, 0xfa2a4622, 0x510e527f));
    RoundStep(block, 3, 0x00000000, Regs(0xc8c347a7, 0x5a6ad9ad, 0x5d6aebcd, 0x6a09e667, 0xf92939eb, 0x78ce7989, 0xfa2a4622, 0x510e527f), Regs(0xd550f666, 0xc8c347a7, 0x5a6ad9ad, 0x5d6aebcd, 0x24e00850, 0xf92939eb, 0x78ce7989, 0xfa2a4622));
  }

  lemma Rounds4(block: BlockWords)
    requires Rounds(block, INITIAL, 4) == Regs(0xd550f666, 0xc8c347a7, 0x5a6ad9ad, 0x5d6aebcd, 0x24e00850, 0xf92939eb, 0x78ce7989, 0xfa2a4622)
    requires W(block, 4) == 0x00000000 && W(block, 5) == 0x00000000 && W(block, 6) == 0x00000000 && W(block, 7) == 0x00000000
    ensures Rounds(block, INITIAL, 8) == Regs(0x85a07b5f, 0xe5030380, 0x2b4209f5, 0x04409a6a, 0x0c657a79, 0x9b27a401, 0x714260ad, 0x43ada245)
  {
    hide W, Rounds;
    RoundStep(block, 4, 0x00000000, Regs(0xd550f666, 0xc8c347a7, 0x5a6ad9ad, 0x5d6aebcd, 0x24e00850, 0xf92939eb, 0x78ce7989, 0xfa2a4622), Regs(0x04409a6a, 0xd550f666, 0xc8c347a7, 0x5a6ad9ad, 0x43ada245, 0x24e00850, 0xf92939eb, 0x78ce7989));
    RoundStep(block, 5, 0x00000000, Regs(0x04409a6a, 0xd550f666, 0xc8c347a7, 0x5a6ad9ad, 0x43ada245, 0x24e00850, 0xf92939eb, 0x78ce7989), Regs(0x2b4209f5, 0x04409a6a, 0xd550f666, 0xc8c347a7, 0x714260ad, 0x43ada245, 0x24e00850, 0xf92939eb));
    RoundStep(block, 6, 0x00000000, Regs(0x2b4209f5, 0x04409a6a, 0xd550f666, 0xc8c347a7, 0x714260ad, 0x43ada245, 0x24e00850, 0xf92939eb), Regs(0xe5030380, 0x2b4209f5, 0x04409a6a, 0xd550f666, 0x9b27a401, 0x714260ad, 0x43ada245, 0x24e00850));
    RoundStep(block, 7, 0x00000000, Regs(0xe5030380, 0x2b4209f5, 0x04409a6a, 0xd550f666, 0x9b27a401, 0x714260ad, 0x43ada245, 0x24e00850), Regs(0x85a07b5f, 0xe5030380, 0x2b4209f5, 0x04409a6a, 0x0c657a79, 0x9b27a401, 0x714260ad, 0x43ada245));
  }

  lemma Rounds8(block: BlockWords)
    requires Rounds(block, INITIAL, 8) == Regs(0x85a07b5f, 0xe5030380, 0x2b4209f5, 0x04409a6a, 0x0c657a79, 0x9b27a401, 0x714260ad, 0x43ada245)
    requires W(block, 8) == 0x00000000 && W(block, 9) == 0x00000000 && W(block, 10) == 0x00000000 && W(block, 11) == 0x00000000
    ensures Rounds(block, INITIAL, 12) == Regs(0xf71fc5a9, 0x4798a3f4, 0x8c87346b, 0x8e04ecb9, 0x816fd6e9, 0x436b23e8, 0x1cc92596, 0x32ca2d8c)
  {
    hide W, Rounds;
    RoundStep(block, 8, 0x00000000, Regs(0x85a07b5f, 0xe5030380, 0x2b4209f5, 0x04409a6a, 0x0c657a79, 0x9b27a401, 0x714260ad, 0x43ada245), Regs(0x8e04ecb9, 0x85a07b5f, 0xe5030380, 0x2b4209f5, 0x32ca2d8c, 0x0c657a79, 0x9b27a401, 0x714260ad));
    RoundStep(block, 9, 0x00000000, Regs(0x8e04ecb9, 0x85a07b5f, 0xe5030380, 0x2b4209f5, 0x32ca2d8c, 0x0c657a79, 0x9b27a401, 0x714260ad), Regs(0x8c87346b, 0x8e04ecb9, 0x85a07b5f, 0xe5030380, 0x1cc92596, 0x32ca2d8c, 0x0c657a79, 0x9b27a401));
    RoundStep(block, 10, 0x00000000, Regs(0x8c87346b, 0x8e04ecb9, 0x85a07b5f, 0xe5030380, 0x1cc92596, 0x32ca2d8c, 0x0c657a79, 0x9b27a401), Regs(0x4798a3f4, 0x8c87346b, 0x8e04ecb9, 0x85a07b5f, 0x436b23e8, 0x1cc92596, 0x32ca2d8c, 0x0c657a79));
    RoundStep(block, 11, 0x00000000, Regs(0x4798a3f4, 0x8c87346b, 0x8e04ecb9, 0x85a07b5f, 0x436b23e8, 0x1cc92596, 0x32ca2d8c, 0x0c657a79), Regs(0xf71fc5a9, 0x4798a3f4, 0x8c87346b, 0x8e04ecb9, 0x816fd6e9, 0x436b23e8, 0x1cc92596, 0x32ca2d8c));
  }

  lemma Rounds12(block: BlockWords)
    requires Rounds(block, INITIAL, 12) == Regs(0xf71fc5a9, 0x4798a3f4, 0x8c87346b, 0x8e04ecb9, 0x816fd6e9, 0x436b23e8, 0x1cc92596, 0x32ca2d8c)
    requires W(block, 12) == 0x00000000 && W(block, 13) == 0x00000000 && W(block, 14) == 0x00000000 && W(block, 15) == 0x00000018
    ensures Rounds(block, INITIAL, 16) == Regs(0xb0fa238e, 0xc0645fde, 0xd932eb16, 0x87912990, 0x07590dcd, 0x0b92f20c, 0x745a48de, 0x1e578218)
  {
    hide W, Rounds;
    RoundStep(block, 12, 0x00000000, Regs(0xf71fc5a9, 0x4798a3f4, 0x8c87346b, 0x8e04ecb9, 0x816fd6e9, 0x436b23e8, 0x1cc92596, 0x32ca2d8c), Regs(0x87912990, 0xf71fc5a9, 0x4798a3f4, 0x8c87346b, 0x1e578218, 0x816fd6e9, 0x436b23e8, 0x1cc92596));
    RoundStep(block, 13, 0x00000000, Regs(0x87912990, 0xf71fc5a9, 0x4798a3f4, 0x8c87346b, 0x1e578218, 0x816fd6e9, 0x436b23e8, 0x1cc92596), Regs(0xd932eb16, 0x87912990, 0xf71fc5a9, 0x4798a3f4, 0x745a48de, 0x1e578218, 0x816fd6e9, 0x436b23e8));
    RoundStep(block, 14, 0x00000000, Regs(0xd932eb16, 0x87912990, 0xf71fc5a9, 0x4798a3f4, 0x745a48de, 0x1e578218, 0x816fd6e9, 0x436b23e8), Regs(0xc0645fde, 0xd932eb16, 0x87912990, 0xf71fc5a9, 0x0b92f20c, 0x745a48de, 0x1e578218, 0x816fd6e9));
    RoundStep(block, 15, 0x00000018, Regs(0xc0645fde, 0xd932eb16, 0x87912990, 0xf71fc5a9, 0x0b92f20c, 0x745a48de, 0x1e578218, 0x816fd6e9), Regs(0xb0fa238e, 0xc0645fde, 0xd932eb16, 0x87912990, 0x07590dcd, 0x0b92f20c, 0x745a48de, 0x1e578218));
  }

  lemma Rounds16(block: BlockWords)
    requires Rounds(block, INITIAL, 16) == Regs(0xb0fa238e, 0xc0645fde, 0xd932eb16, 0x87912990, 0x07590dcd, 0x0b92f20c, 0x745a48de, 0x1e578218)
    requires W(block, 16) == 0x61626380 && W(block, 17) == 0x000f0000 && W(block, 18) == 0x7da86405 && W(block, 19) == 0x600003c6
    ensures Rounds(block, INITIAL, 20) == Regs(0xe1f20c33, 0xfe777bbf, 0xc2fbd9d1, 0x21da9a9b, 0xb0638179, 0xcc899961, 0x846ee454, 0x8034229c)
  {
    hide W, Rounds;
    RoundStep(block, 16, 0x61626380, Regs(0xb0fa238e, 0xc0645fde, 0xd932eb16, 0x87912990, 0x07590dcd, 0x0b92f20c, 0x745a48de, 0x1e578218), Regs(0x21da9a9b, 0xb0fa238e, 0xc0645fde, 0xd932eb16, 0x8034229c, 0x07590dcd, 0x0b92f20c, 0x745a48de));
    RoundStep(block, 17, 0x000f0000, Regs(0x21da9a9b, 0xb0fa238e, 0xc0645fde, 0xd932eb16, 0x8034229c, 0x07590dcd, 0x0b92f20c, 0x745a48de), Regs(0xc2fbd9d1, 0x21da9a9b, 0xb0fa238e, 0xc0645fde, 0x846ee454, 0x8034229c, 0x07590dcd, 0x0b92f20c));
    RoundStep(block, 18, 0x7da86405, Regs(0xc2fbd9d1, 0x21da9a9b, 0xb0fa238e, 0xc0645fde, 0x846ee454, 0x8034229c, 0x07590dcd, 0x0b92f20c), Regs(0xfe777bbf, 0xc2fbd9d1, 0x21da9a9b, 0xb0fa238e, 0xcc899961, 0x846ee454, 0x8034229c, 0x07590dcd));
    RoundStep(block, 19, 0x600003c6, Regs(0xfe777bbf, 0xc2fbd9d1, 0x21da9a9b, 0xb0fa238e, 0xcc899961, 0x846ee454, 0x8034229c, 0x07590dcd), Regs(0xe1f20c33, 0xfe777bbf, 0xc2fbd9d1, 0x21da9a9b, 0xb0638179, 0xcc899961, 0x846ee454, 0x8034229c));
  }

  lemma Rounds20(block: BlockWords)
    requires Rounds(block, INITIAL, 20) == Regs(0xe1f20c33, 0xfe777bbf, 0xc2fbd9d1, 0x21da9a9b, 0xb0638179, 0xcc899961, 0x846ee454, 0x8034229c)
    requires W(block, 20) == 0x3e9d7b78 && W(block, 21) == 0x0183fc00 && W(block, 22) == 0x12dcbfdb && W(block, 23) == 0xe2e2c38e
    ensures Rounds(block, INITIAL, 24) == Regs(0xc5d53d8d, 0xa7a3623f, 0xc2606d6d, 0x9dc68b63, 0xaa47c347, 0x49f5114a, 0xe1257970, 0x8ada8930)
  {
    hide W, Rounds;
    RoundStep(block, 20, 0x3e9d7b78, Regs(0xe1f20c33, 0xfe777bbf, 0xc2fbd9d1, 0x21da9a9b, 0xb0638179, 0xcc899961, 0x846ee454, 0x8034229c), Regs(0x9dc68b63, 0xe1f20c33, 0xfe777bbf, 0xc2fbd9d1, 0x8ada8930, 0xb0638179, 0xcc899961, 0x846ee454));
    RoundStep(block, 21, 0x0183fc00, Regs(0x9dc68b63, 0xe1f20c33, 0xfe777bbf, 0xc2fbd9d1, 0x8ada8930, 0xb0638179, 0xcc899961, 0x846ee454), Regs(0xc2606d6d, 0x9dc68b63, 0xe1f20c33, 0xfe777bbf, 0xe1257970, 0x8ada8930, 0xb0638179, 0xcc899961));
    RoundStep(block, 22, 0x12dcbfdb, Regs(0xc2606d6d, 0x9dc68b63, 0xe1f20c33, 0xfe777bbf, 0xe1257970, 0x8ada8930, 0xb0638179, 0xcc899961), Regs(0xa7a3623f, 0xc2606d6d, 0x9dc68b63, 0xe1f20c33, 0x49f5114a, 0xe1257970, 0x8ada8930, 0xb0638179));
    RoundStep(block, 23, 0xe2e2c38e, Regs(0xa7a3623f, 0xc2606d6d, 0x9dc68b63, 0xe1f20c33, 0x49f5114a, 0xe1257970, 0x8ada8930, 0xb0638179), Regs(0xc5d53d8d, 0xa7a3623f, 0xc2606d6d, 0x9dc68b63, 0xaa47c347, 0x49f5114a, 0xe1257970, 0x8ada8930));
  }

  lemma Rounds24(block: BlockWords)
    requires Rounds(block, INITIAL, 24) == Regs(0xc5d53d8d, 0xa7a3623f, 0xc2606d6d, 0x9dc68b63, 0xaa47c347, 0x49f5114a, 0xe1257970, 0x8ada8930)
    requires W(block, 24) == 0xc8215c1a && W(block, 25) == 0xb73679a2 && W(block, 26) == 0xe5bc3909 && W(block, 27) == 0x32663c5b
    ensures Rounds(block, INITIAL, 28) == Regs(0x77d37528, 0xb62ec4bc, 0xcde8037d, 0x1c2c2838, 0xedffbff8, 0xc74c6516, 0x14383d8e, 0x2823ef91)
  {
    hide W, Rounds;
    RoundStep(block, 24, 0xc8215c1a, Regs(0xc5d53d8d, 0xa7a3623f, 0xc2606d6d, 0x9dc68b63, 0xaa47c347, 0x49f5114a, 0xe1257970, 0x8ada8930), Regs(0x1c2c2838, 0xc5d53d8d, 0xa7a3623f, 0xc2606d6d, 0x2823ef91, 0xaa47c347, 0x49f5114a, 0xe1257970));
    RoundStep(block, 25, 0xb73679a2, Regs(0x1c2c2838, 0xc5d53d8d, 0xa7a3623f, 0xc2606d6d, 0x2823ef91, 0xaa47c347, 0x49f5114a, 0xe1257970), Regs(0xcde8037d, 0x1c2c2838, 0xc5d53d8d, 0xa7a3623f, 0x14383d8e, 0x2823ef91, 0xaa47c347, 0x49f5114a));
    RoundStep(block, 26, 0xe5bc3909, Regs(0xcde8037d, 0x1c2c2838, 0xc5d53d8d, 0xa7a3623f, 0x14383d8e, 0x2823ef91, 0xaa47c347, 0x49f5114a), Regs(0xb62ec4bc, 0xcde8037d, 0x1c2c2838, 0xc5d53d8d, 0xc74c6516, 0x14383d8e, 0x2823ef91, 0xaa47c347));
    RoundStep(block, 27, 0x32663c5b, Regs(0xb62ec4bc, 0xcde8037d, 0x1c2c2838, 0xc5d53d8d, 0xc74c6516, 0x14383d8e, 0x2823ef91, 0xaa47c347), Regs(0x77d37528, 0xb62ec4bc, 0xcde8037d, 0x1c2c2838, 0xedffbff8, 0xc74c6516, 0x14383d8e, 0x2823ef91));
  }

  lemma Rounds28(block: BlockWords)
    requires Rounds(block, INITIAL, 28) == Regs(0x77d37528, 0xb62ec4bc, 0xcde8037d, 0x1c2c2838, 0xedffbff8, 0xc74c6516, 0x14383d8e, 0x2823ef91)
    requires W(block, 28) == 0x9d209d67 && W(block, 29) == 0xec8726cb && W(block, 30) == 0x702138a4 && W(block, 31) == 0xd3b7973b
    ensures Rounds(block, INITIAL, 32) == Regs(0x73b33bf5, 0xea992a22, 0xa0060b30, 0x363482c9, 0xba591112, 0x0109ab3a, 0xade79437, 0x6112a3b7)
  {
    hide W, Rounds;
    RoundStep(block, 28, 0x9d209d67, Regs(0x77d37528, 0xb62ec4bc, 0xcde8037d, 0x1c2c2838, 0xedffbff8, 0xc74c6516, 0x14383d8e, 0x2823ef91), Regs(0x363482c9, 0x77d37528, 0xb62ec4bc, 0xcde8037d, 0x6112a3b7, 0xedffbff8, 0xc74c6516, 0x14383d8e));
    RoundStep(block, 29, 0xec8726cb, Regs(0x363482c9, 0x77d37528, 0xb62ec4bc, 0xcde8037d, 0x6112a3b7, 0xedffbff8, 0xc74c6516, 0x14383d8e), Regs(0xa0060b30, 0x363482c9, 0x77d37528, 0xb62ec4bc, 0xade79437, 0x6112a3b7, 0xedffbff8, 0xc74c6516));
    RoundStep(block, 30, 0x702138a4, Regs(0xa0060b30, 0x363482c9, 0x77d37528, 0xb62ec4bc, 0xade79437, 0x6112a3b7, 0xedffbff8, 0xc74c6516), Regs(0xea992a22, 0xa0060b30, 0x363482c9, 0x77d37528, 0x0109ab3a, 0xade79437, 0x6112a3b7, 0xedffbff8));
    RoundStep(block, 31, 0xd3b7973b, Regs(0xea992a22, 0xa0060b30, 0x363482c9, 0x77d37528, 0x0109ab3a, 0xade79437, 0x6112a3b7, 0xedffbff8), Regs(0x73b33bf5, 0xea992a22, 0xa0060b30, 0x363482c9, 0xba591112, 0x0109ab3a, 0xade79437, 0x6112a3b7));
  }

  lemma Rounds32(block: BlockWords)
    requires Rounds(block, INITIAL, 32) == Regs(0x73b33bf5, 0xea992a22, 0xa0060b30, 0x363482c9, 0xba591112, 0x0109ab3a, 0xade79437, 0x6112a3b7)
    requires W(block, 32) == 0x93f5997f && W(block, 33) == 0x3b68ba73 && W(block, 34) == 0xaff4ffc1 && W(block, 35) == 0xf10a5c62
    ensures Rounds(block, INITIAL, 36) == Regs(0x65a0cfe4, 0xa9a7738c, 0xfe604df5, 0x98e12507, 0xf4b002d6, 0x085f3833, 0x59249dd3, 0x9cd9f5f6)
  {
    hide W, Rounds;
    RoundStep(block, 32, 0x93f5997f, Regs(0x73b33bf5, 0xea992a22, 0xa0060b30, 0x363482c9, 0xba591112, 0x0109ab3a, 0xade79437, 0x6112a3b7), Regs(0x98e12507, 0x73b33bf5, 0xea992a22, 0xa0060b30, 0x9cd9f5f6, 0xba591112, 0x0109ab3a, 0xade79437));
    RoundStep(block, 33, 0x3b68ba73, Regs(0x98e12507, 0x73b33bf5, 0xea992a22, 0xa0060b30, 0x9cd9f5f6, 0xba591112, 0x0109ab3a, 0xade79437), Regs(0xfe604df5, 0x98e12507, 0x73b33bf5, 0xea992a22, 0x59249dd3, 0x9cd9f5f6, 0xba591112, 0x0109ab3a));
    RoundStep(block, 34, 0xaff4ffc1, Regs(0xfe604df5, 0x98e12507, 0x73b33bf5, 0xea992a22, 0x59249dd3, 0x9cd9f5f6, 0xba591112, 0x0109ab3a), Regs(0xa9a7738c, 0xfe604df5, 0x98e12507, 0x73b33bf5, 0x085f3833, 0x59249dd3, 0x9cd9f5f6, 0xba591112));
    RoundStep(block, 35, 0xf10a5c62, Regs(0xa9a7738c, 0xfe604df5, 0x98e12507, 0x73b33bf5, 0x085f3833, 0x59249dd3, 0x9cd9f5f6, 0xba591112), Regs(0x65a0cfe4, 0xa9a7738c, 0xfe604df5, 0x98e12507, 0xf4b002d6, 0x085f3833, 0x59249dd3, 0x9cd9f5f6));
  }

  lemma Rounds36(block: BlockWords)
    requires Rounds(block, INITIAL, 36) == Regs(0x65a0cfe4, 0xa9a7738c, 0xfe604df5, 0x98e12507, 0xf4b002d6, 0x085f3833, 0x59249dd3, 0x9cd9f5f6)
    requires W(block, 36) == 0x0a8b3996 && W(block, 37) == 0x72af830a && W(block, 38) == 0x9409e33e && W(block, 39) == 0x24641522
    ensures Rounds(block, INITIAL, 40) == Regs(0x79ea687a, 0x6dc57a8a, 0x34df1604, 0x41a65cb1, 0x1efbc0a0, 0xf0781bc8, 0xa507a53d, 0x0772a26b)
  {
    hide W, Rounds;
    RoundStep(block, 36, 0x0a8b3996, Regs(0x65a0cfe4, 0xa9a7738c, 0xfe604df5, 0x98e12507, 0xf4b002d6, 0x085f3833, 0x59249dd3, 0x9cd9f5f6), Regs(0x41a65cb1, 0x65a0cfe4, 0xa9a7738c, 0xfe604df5, 0x0772a26b, 0xf4b002d6, 0x085f3833, 0x59249dd3));
    RoundStep(block, 37, 0x72af830a, Regs(0x41a65cb1, 0x65a0cfe4, 0xa9a7738c, 0xfe604df5, 0x0772a26b, 0xf4b002d6, 0x085f3833, 0x59249dd3), Regs(0x34df1604, 0x41a65cb1, 0x65a0cfe4, 0xa9a7738c, 0xa507a53d, 0x0772a26b, 0xf4b002d6, 0x085f3833));
    RoundStep(block, 38, 0x9409e33e, Regs(0x34df1604, 0x41a65cb1, 0x65a0cfe4, 0xa9a7738c, 0xa507a53d, 0x0772a26b, 0xf4b002d6, 0x085f3833), Regs(0x6dc57a8a, 0x34df1604, 0x41a65cb1, 0x65a0cfe4, 0xf0781bc8, 0xa507a53d, 0x0772a26b, 0xf4b002d6));
    RoundStep(block, 39, 0x24641522, Regs(0x6dc57a8a, 0x34df1604, 0x41a65cb1, 0x65a0cfe4, 0xf0781bc8, 0xa507a53d, 0x0772a26b, 0xf4b002d6), Regs(0x79ea687a, 0x6dc57a8a, 0x34df1604, 0x41a65cb1, 0x1efbc0a0, 0xf0781bc8, 0xa507a53d, 0x0772a26b));
  }

  lemma Rounds40(block: BlockWords)
    requires Rounds(block, INITIAL, 40) == Regs(0x79ea687a, 0x6dc57a8a, 0x34df1604, 0x41a65cb1, 0x1efbc0a0, 0xf0781bc8, 0xa507a53d, 0x0772a26b)
    requires W(block, 40) == 0x9f47bf94 && W(block, 41) == 0xf0a64f5a && W(block, 42) == 0x3e246a79 && W(block, 43) == 0x27333ba3
    ensures Rounds(block, INITIAL, 44) == Regs(0x9d4baf93, 0x17aa0dfe, 0xdf46652f, 0xd6670766, 0xfda24c2e, 0xdecd4715, 0x838b2711, 0x26352d63)
  {
    hide W, Rounds;
    RoundStep(block, 40, 0x9f47bf94, Regs(0x79ea687a, 0x6dc57a8a, 0x34df1604, 0x41a65cb1, 0x1efbc0a0, 0xf0781bc8, 0xa507a53d, 0x0772a26b), Regs(0xd6670766, 0x79ea687a, 0x6dc57a8a, 0x34df1604, 0x26352d63, 0x1efbc0a0, 0xf0781bc8, 0xa507a53d));
    RoundStep(block, 41, 0xf0a64f5a, Regs(0xd6670766, 0x79ea687a, 0x6dc57a8a, 0x34df1604, 0x26352d63, 0x1efbc0a0, 0xf0781bc8, 0xa507a53d), Regs(0xdf46652f, 0xd6670766, 0x79ea687a, 0x6dc57a8a, 0x838b2711, 0x26352d63, 0x1efbc0a0, 0xf0781bc8));
    RoundStep(block, 42, 0x3e246a79, Regs(0xdf46652f, 0xd6670766, 0x79ea687a, 0x6dc57a8a, 0x838b2711, 0x26352d63, 0x1efbc0a0, 0xf0781bc8), Regs(0x17aa0dfe, 0xdf46652f, 0xd6670766, 0x79ea687a, 0xdecd4715, 0x838b2711, 0x26352d63, 0x1efbc0a0));
    RoundStep(block, 43, 0x27333ba3, Regs(0x17aa0dfe, 0xdf46652f, 0xd6670766, 0x79ea687a, 0xdecd4715, 0x838b2711, 0x26352d63, 0x1efbc0a0), Regs(0x9d4baf93, 0x17aa0dfe, 0xdf46652f, 0xd6670766, 0xfda24c2e, 0xdecd4715, 0x838b2711, 0x26352d63));
  }

  lemma Rounds44(block: BlockWords)
    requires Rounds(block, INITIAL, 44) == Regs(0x9d4baf93, 0x17aa0dfe, 0xdf46652f, 0xd6670766, 0xfda24c2e, 0xdecd4715, 0x838b2711, 0x26352d63)
    requires W(block, 44) == 0x0c4763f2 && W(block, 45) == 0x840abf27 && W(block, 46) == 0x7a290d5d && W(block, 47) == 0x065c43da
    ensures Rounds(block, INITIAL, 48) == Regs(0x4172328d, 0xa14c14b0, 0x72ab4b91, 0x26628815, 0xfecf0bc6, 0xd57b94a9, 0xb7755da1, 0xa80f11f0)
  {
    hide W, Rounds;
    RoundStep(block, 44, 0x0c4763f2, Regs(0x9d4baf93, 0x17aa0dfe, 0xdf46652f, 0xd6670766, 0xfda24c2e, 0xdecd4715, 0x838b2711, 0x26352d63), Regs(0x26628815, 0x9d4baf93, 0x17aa0dfe, 0xdf46652f, 0xa80f11f0, 0xfda24c2e, 0xdecd4715, 0x838b2711));
    RoundStep(block, 45, 0x840abf27, Regs(0x26628815, 0x9d4baf93, 0x17aa0dfe, 0xdf46652f, 0xa80f11f0, 0xfda24c2e, 0xdecd4715, 0x838b2711), Regs(0x72ab4b91, 0x26628815, 0x9d4baf93, 0x17aa0dfe, 0xb7755da1, 0xa80f11f0, 0xfda24c2e, 0xdecd4715));
    RoundStep(block, 46, 0x7a290d5d, Regs(0x72ab4b91, 0x26628815, 0x9d4baf93, 0x17aa0dfe, 0xb7755da1, 0xa80f11f0, 0xfda24c2e, 0xdecd4715), Regs(0xa14c14b0, 0x72ab4b91, 0x26628815, 0x9d4baf93, 0xd57b94a9, 0xb7755da1, 0xa80f11f0, 0xfda24c2e));
    RoundStep(block, 47, 0x065c43da, Regs(0xa14c14b0, 0x72ab4b91, 0x26628815, 0x9d4baf93, 0xd57b94a9, 0xb7755da1, 0xa80f11f0, 0xfda24c2e), Regs(0x4172328d, 0xa14c14b0, 0x72ab4b91, 0x26628815, 0xfecf0bc6, 0xd57b94a9, 0xb7755da1, 0xa80f11f0));
  }

  lemma Rounds48(block: BlockWords)
    requires Rounds(block, INITIAL, 48) == Regs(0x4172328d, 0xa14c14b0, 0x72ab4b91, 0x26628815, 0xfecf0bc6, 0xd57b94a9, 0xb7755da1, 0xa80f11f0)
    requires W(block, 48) == 0xfb3e89cb && W(block, 49) == 0xcc7617db && W(block, 50) == 0xb9e66c34 && W(block, 51) == 0xa9993667
    ensures Rounds(block, INITIAL, 52) == Regs(0x886e7a22, 0x7a0508a1, 0xf11bfaa8, 0x05757ceb, 0x49231c1e, 0x52f1ccf7, 0x6e5c390c, 0xbd714038)
  {
    hide W, Rounds;
    RoundStep(block, 48, 0xfb3e89cb, Regs(0x4172328d, 0xa14c14b0, 0x72ab4b91, 0x26628815, 0xfecf0bc6, 0xd57b94a9, 0xb7755da1, 0xa80f11f0), Regs(0x05757ceb, 0x4172328d, 0xa14c14b0, 0x72ab4b91, 0xbd714038, 0xfecf0bc6, 0xd57b94a9, 0xb7755da1));
    RoundStep(block, 49, 0xcc7617db, Regs(0x05757ceb, 0x4172328d, 0xa14c14b0, 0x72ab4b91, 0xbd714038, 0xfecf0bc6, 0xd57b94a9, 0xb7755da1), Regs(0xf11bfaa8, 0x05757ceb, 0x4172328d, 0xa14c14b0, 0x6e5c390c, 0xbd714038, 0xfecf0bc6, 0xd57b94a9));
    RoundStep(block, 50, 0xb9e66c34, Regs(0xf11bfaa8, 0x05757ceb, 0x4172328d, 0xa14c14b0, 0x6e5c390c, 0xbd714038, 0xfecf0bc6, 0xd57b94a9), Regs(0x7a0508a1, 0xf11bfaa8, 0x05757ceb, 0x4172328d, 0x52f1ccf7, 0x6e5c390c, 0xbd714038, 0xfecf0bc6));
    RoundStep(block, 51, 0xa9993667, Regs(0x7a0508a1, 0xf11bfaa8, 0x05757ceb, 0x4172328d, 0x52f1ccf7, 0x6e5c390c, 0xbd714038, 0xfecf0bc6), Regs(0x886e7a22, 0x7a0508a1, 0xf11bfaa8, 0x05757ceb, 0x49231c1e, 0x52f1ccf7, 0x6e5c390c, 0xbd714038));
  }

  lemma Rounds52(block: BlockWords)
    requires Rounds(block, INITIAL, 52) == Regs(0x886e7a22, 0x7a0508a1, 0xf11bfaa8, 0x05757ceb, 0x49231c1e, 0x52f1ccf7, 0x6e5c390c, 0xbd714038)
    requires W(block, 52) == 0x84badedd && W(block, 53) == 0xc21462bc && W(block, 54) == 0x1487472c && W(block, 55) == 0xb20f7a99
    ensures Rounds(block, INITIAL, 56) == Regs(0x38cc9913, 0x3ec45cdb, 0xf5702fdb, 0x101fd28f, 0x54cb266b, 0xe50e1b4f, 0x9f4787c3, 0x529e7d00)
  {
    hide W, Rounds;
    RoundStep(block, 52, 0x84badedd, Regs(0x886e7a22, 0x7a0508a1, 0xf11bfaa8, 0x05757ceb, 0x49231c1e, 0x52f1ccf7, 0x6e5c390c, 0xbd714038), Regs(0x101fd28f, 0x886e7a22, 0x7a0508a1, 0xf11bfaa8, 0x529e7d00, 0x49231c1e, 0x52f1ccf7, 0x6e5c390c));
    RoundStep(block, 53, 0xc21462bc, Regs(0x101fd28f, 0x886e7a22, 0x7a0508a1, 0xf11bfaa8, 0x529e7d00, 0x49231c1e, 0x52f1ccf7, 0x6e5c390c), Regs(0xf5702fdb, 0x101fd28f, 0x886e7a22, 0x7a0508a1, 0x9f4787c3, 0x529e7d00, 0x49231c1e, 0x52f1ccf7));
    RoundStep(block, 54, 0x1487472c, Regs(0xf5702fdb, 0x101fd28f, 0x886e7a22, 0x7a0508a1, 0x9f4787c3, 0x529e7d00, 0x49231c1e, 0x52f1ccf7), Regs(0x3ec45cdb, 0xf5702fdb, 0x101fd28f, 0x886e7a22, 0xe50e1b4f, 0x9f4787c3, 0x529e7d00, 0x49231c1e));
    RoundStep(block, 55, 0xb20f7a99, Regs(0x3ec45cdb, 0xf5702fdb, 0x101fd28f, 0x886e7a22, 0xe50e1b4f, 0x9f4787c3, 0x529e7d00, 0x49231c1e), Regs(0x38cc9913, 0x3ec45cdb, 0xf5702fdb, 0x101fd28f, 0x54cb266b, 0xe50e1b4f, 0x9f4787c3, 0x529e7d00));
  }

  lemma Rounds56(block: BlockWords)
    requires Rounds(block, INITIAL, 56) == Regs(0x38cc9913, 0x3ec45cdb, 0xf5702fdb, 0x101fd28f, 0x54cb266b, 0xe50e1b4f, 0x9f4787c3, 0x529e7d00)
    requires W(block, 56) == 0xef57b9cd && W(block, 57) == 0xebe6b238 && W(block, 58) == 0x9fe3095e && W(block, 59) == 0x78bc8d4b
    ensures Rounds(block, INITIAL, 60) == Regs(0xb6ae8fff, 0xffb70472, 0xc062d46f, 0xfcd1887b, 0xb21bad3d, 0x6d83bfc6, 0x7e44008e, 0x9b5e906c)
  {
    hide W, Rounds;
    RoundStep(block, 56, 0xef57b9cd, Regs(0x38cc9913, 0x3ec45cdb, 0xf5702fdb, 0x101fd28f, 0x54cb266b, 0xe50e1b4f, 0x9f4787c3, 0x529e7d00), Regs(0xfcd1887b, 0x38cc9913, 0x3ec45cdb, 0xf5702fdb, 0x9b5e906c, 0x54cb266b, 0xe50e1b4f, 0x9f4787c3));
    RoundStep(block, 57, 0xebe6b238, Regs(0xfcd1887b, 0x38cc9913, 0x3ec45cdb, 0xf5702fdb, 0x9b5e906c, 0x54cb266b, 0xe50e1b4f, 0x9f4787c3), Regs(0xc062d46f, 0xfcd1887b, 0x38cc9913, 0x3ec45cdb, 0x7e44008e, 0x9b5e906c, 0x54cb266b, 0xe50e1b4f));
    RoundStep(block, 58, 0x9fe3095e, Regs(0xc062d46f, 0xfcd1887b, 0x38cc9913, 0x3ec45cdb, 0x7e44008e, 0x9b5e906c, 0x54cb266b, 0xe50e1b4f), Regs(0xffb70472, 0xc062d46f, 0xfcd1887b, 0x38cc9913, 0x6d83bfc6, 0x7e44008e, 0x9b5e906c, 0x54cb266b));
    RoundStep(block, 59, 0x78bc8d4b, Regs(0xffb70472, 0xc062d46f, 0xfcd1887b, 0x38cc9913, 0x6d83bfc6, 0x7e44008e, 0x9b5e906c, 0x54cb266b), Regs(0xb6ae8fff, 0xffb70472, 0xc062d46f, 0xfcd1887b, 0xb21bad3d, 0x6d83bfc6, 0x7e44008e, 0x9b5e906c));
  }

  lemma Rounds60(block: BlockWords)
    requires Rounds(block, INITIAL, 60) == Regs(0xb6ae8fff, 0xffb70472, 0xc062d46f, 0xfcd1887b, 0xb21bad3d, 0x6d83bfc6, 0x7e44008e, 0x9b5e906c)
    requires W(block, 60) == 0xa43fcf15 && W(block, 61) == 0x668b2ff8 && W(block, 62) == 0xeeaba2cc && W(block, 63) == 0x12b1edeb
    ensures Rounds(block, INITIAL, 64) == Regs(0x506e3058, 0xd39a2165, 0x04d24d6c, 0xb85e2ce9, 0x5ef50f24, 0xfb121210, 0x948d25b6, 0x961f4894)
  {
    hide W, Rounds;
    RoundStep(block, 60, 0xa43fcf15, Regs(0xb6ae8fff, 0xffb70472, 0xc062d46f, 0xfcd1887b, 0xb21bad3d, 0x6d83bfc6, 0x7e44008e, 0x9b5e906c), Regs(0xb85e2ce9, 0xb6ae8fff, 0xffb70472, 0xc062d46f, 0x961f4894, 0xb21bad3d, 0x6d83bfc6, 0x7e44008e));
    RoundStep(block, 61, 0x668b2ff8, Regs(0xb85e2ce9, 0xb6ae8fff, 0xffb70472, 0xc062d46f, 0x961f4894, 0xb21bad3d, 0x6d83bfc6, 0x7e44008e), Regs(0x04d24d6c, 0xb85e2ce9, 0xb6ae8fff, 0xffb70472, 0x948d25b6, 0x961f4894, 0xb21bad3d, 0x6d83bfc6));
    RoundStep(block, 62, 0xeeaba2cc, Regs(0x04d24d6c, 0xb85e2ce9, 0xb6ae8fff, 0xffb70472, 0x948d25b6, 0x961f4894, 0xb21bad3d, 0x6d83bfc6), Regs(0xd39a2165, 0x04d24d6c, 0xb85e2ce9, 0xb6ae8fff, 0xfb121210, 0x948d25b6, 0x961f4894, 0xb21bad3d));
    RoundStep(block, 63, 0x12b1edeb, Regs(0xd39a2165, 0x04d24d6c, 0xb85e2ce9, 0xb6ae8fff, 0xfb121210, 0x948d25b6, 0x961f4894, 0xb21bad3d), Regs(0x506e3058, 0xd39a2165, 0x04d24d6c, 0xb85e2ce9, 0x5ef50f24, 0xfb121210, 0x948d25b6, 0x961f4894));
  }

  lemma CompressAbc(block: BlockWords)
    requires IsAbc(block)
    ensures Compress(INITIAL, block) == Regs(0xba7816bf, 0x8f01cfea, 0x414140de, 0x5dae2223, 0xb00361a3, 0x96177a9c, 0xb410ff61, 0xf20015ad)
  {
    hide W, Rounds, IsAbc;
    Words0(block);
    RoundsNone(block, INITIAL);
    Words16(block);
    Words24(block);
    Words32(block);
    Words40(block);
    Words48(block);
    Words56(block);
    Rounds0(block);
    Rounds4(block);
    Rounds8(block);
    Rounds12(block);
    Rounds16(block);
    Rounds20(block);
    Rounds24(block);
    Rounds28(block);
    Rounds32(block);
    Rounds36(block);
    Rounds40(block);
    Rounds44(block);
    Rounds48(block);
    Rounds52(block);
    Rounds56(block);
    Rounds60(block);
  }

  lemma RoundsNone(block: BlockWords, r: Regs)
    ensures Rounds(block, r, 0) == r
  {
  }

  lemma LengthBytes()
    ensures BytesOf(ToWord(LengthHigh(3))) == [0, 0, 0, 0] && BytesOf(ToWord(LengthLow(3))) == [0, 0, 0, 0x18]
  {
    assert LengthHigh(3) == 0 && LengthLow(3) == 0x18;
    assert (0x18 as nat) as bv32 == 0x18;
  }

  lemma PaddingOfThree()
    ensures Padding(3) == [0x80] + Zeros(52) + [0, 0, 0, 0] + [0, 0, 0, 0x18]
  {
    hide BytesOf, ToWord, LengthHigh, LengthLow;
    LengthBytes();
    assert ZeroCount(3) == 52;
  }

  lemma AbcPadded(m: seq<bv8>)
    requires m == [0x61, 0x62, 0x63]
    ensures |m + Padding(3)| == 64 && IsAbc(Parse(m + Padding(3)))
  {
    hide WordOf, Padding;
    PaddingOfThree();
    PaddedBytes(m);
    WordsOfAbc();
  }

  lemma PaddedBytes(m: seq<bv8>)
    requires m == [0x61, 0x62, 0x63]
    ensures var p := m + ([0x80] + Zeros(52) + [0, 0, 0, 0] + [0, 0, 0, 0x18]);
            && |p| == 64 && p[0] == 0x61 && p[1] == 0x62 && p[2] == 0x63 && p[3] == 0x80 && p[63] == 0x18
            && forall k | 4 <= k < 63 :: p[k] == 0
  {
  }

  lemma WordsOfAbc()
    ensures WordOf(0x61, 0x62, 0x63, 0x80) == 0x61626380 && WordOf(0, 0, 0, 0) == 0 && WordOf(0, 0, 0, 0x18) == 0x18
  {
  }

  lemma AbcBytes(r: Regs)
    requires r == Regs(0xba7816bf, 0x8f01cfea, 0x414140de, 0x5dae2223, 0xb00361a3, 0x96177a9c, 0xb410ff61, 0xf20015ad)
    ensures DigestBytes(r) == [
              0xba, 0x78, 0x16, 0xbf, 0x8f, 0x01, 0xcf, 0xea, 0x41, 0x41, 0x40, 0xde, 0x5d, 0xae, 0x22, 0x23,
              0xb0, 0x03, 0x61, 0xa3, 0x96, 0x17, 0x7a, 0x9c, 0xb4, 0x10, 0xff, 0x61, 0xf2, 0x00, 0x15, 0xad]
  {
    hide BytesOf;
    BytesOfWord(0xba7816bf, 0xba, 0x78, 0x16, 0xbf);
    BytesOfWord(0x8f01cfea, 0x8f, 0x01, 0xcf, 0xea);
    BytesOfWord(0x414140de, 0x41, 0x41, 0x40, 0xde);
    BytesOfWord(0x5dae2223, 0x5d, 0xae, 0x22, 0x23);
    BytesOfWord(0xb00361a3, 0xb0, 0x03, 0x61, 0xa3);
    BytesOfWord(0x96177a9c, 0x96, 0x17, 0x7a, 0x9c);
    BytesOfWord(0xb410ff61, 0xb4, 0x10, 0xff, 0x61);
    BytesOfWord(0xf20015ad, 0xf2, 0x00, 0x15, 0xad);
  }

  lemma BytesOfWord(w: bv32, b0: bv8, b1: bv8, b2: bv8, b3: bv8)
    requires w == WordOf(b0, b1, b2, b3)
    ensures BytesOf(w)[0] == b0 && BytesOf(w)[1] == b1 && BytesOf(w)[2] == b2 && BytesOf(w)[3] == b3
  {
  }

  /** The example of one block: 61 62 63 has the digest ba7816bf 8f01cfea 414140de 5dae2223 b00361a3 96177a9c b410ff61 f20015ad. */
  lemma DigestOfAbc()
    ensures Sha256([0x61, 0x62, 0x63]) == [
              0xba, 0x78, 0x16, 0xbf, 0x8f, 0x01, 0xcf, 0xea, 0x41, 0x41, 0x40, 0xde, 0x5d, 0xae, 0x22, 0x23,
              0xb0, 0x03, 0x61, 0xa3, 0x96, 0x17, 0x7a, 0x9c, 0xb4, 0x10, 0xff, 0x61, 0xf2, 0x00, 0x15, 0xad]
  {
    hide Compress, Parse, Padding, IsAbc, DigestBytes;
    var m: seq<bv8> := [0x61, 0x62, 0x63];
    var block := m + Padding(3);
    AbcPadded(m);
    CompressAbc(Parse(block));
    HashOneBlock(INITIAL, block);
    AbcBytes(Compress(INITIAL, Parse(block)));
  }
}
