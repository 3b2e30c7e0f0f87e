/** The example of appendix C.3 of FIPS 197: key, block and cipher text as they are printed there. */
module AesKnown {
  import opened ByteXor
  import opened AesSpec
  import opened AesKeys
  import opened BlockModes
  import opened AesModes

  /** The bytes 00 to 1f. */
  predicate IsExampleKey(key: Key) {
    && key[0] == 0x00 && key[1] == 0x01 && key[2] == 0x02 && key[3] == 0x03
    && key[4] == 0x04 && key[5] == 0x05 && key[6] == 0x06 && key[7] == 0x07
    && key[8] == 0x08 && key[9] == 0x09 && key[10] == 0x0a && key[11] == 0x0b
    && key[12] == 0x0c && key[13] == 0x0d && key[14] == 0x0e && key[15] == 0x0f
    && key[16] == 0x10 && key[17] == 0x11 && key[18] == 0x12 && key[19] == 0x13
    && key[20] == 0x14 && key[21] == 0x15 && key[22] == 0x16 && key[23] == 0x17
    && key[24] == 0x18 && key[25] == 0x19 && key[26] == 0x1a && key[27] == 0x1b
    && key[28] == 0x1c && key[29] == 0x1d && key[30] == 0x1e && key[31] == 0x1f
  }

  // ---------- Its round keys ----------

  lemma KeyStep(key: Key, i: nat, before: Word, last: Word, w: Word)
    requires 8 <= i < 60 && ExpandedWord(key, i - 8) == before && ExpandedWord(key, i - 1) == last
    requires XorWord(before, Stirred(i, last)) == w
    ensures ExpandedWord(key, i) == w
  {
    hide Stirred, XorWord;
  }

  lemma KeyWords0(key: Key)
    requires IsExampleKey(key)
    ensures ExpandedWord(key, 0) == Word(0x00, 0x01, 0x02, 0x03)
    ensures ExpandedWord(key, 1) == Word(0x04, 0x05, 0x06, 0x07)
    ensures ExpandedWord(key, 2) == Word(0x08, 0x09, 0x0a, 0x0b)
    ensures ExpandedWord(key, 3) == Word(0x0c, 0x0d, 0x0e, 0x0f)
    ensures ExpandedWord(key, 4) == Word(0x10, 0x11, 0x12, 0x13)
    ensures ExpandedWord(key, 5) == Word(0x14, 0x15, 0x16, 0x17)
    ensures ExpandedWord(key, 6) == Word(0x18, 0x19, 0x1a, 0x1b)
    ensures ExpandedWord(key, 7) == Word(0x1c, 0x1d, 0x1e, 0x1f)
  {
    WordsOfKey(key);
  }

  lemma WordsOfKey(key: Key)
    ensures forall i: nat | i < 8 :: ExpandedWord(key, i) == WordAt(key, 4 * i)
  {
    hide WordAt;
  }

  lemma KeyWords8(key: Key)
    requires ExpandedWord(key, 0) == Word(0x00, 0x01, 0x02, 0x03)
    requires ExpandedWord(key, 1) == Word(0x04, 0x05, 0x06, 0x07)
    requires ExpandedWord(key, 2) == Word(0x08, 0x09, 0x0a, 0x0b)
    requires ExpandedWord(key, 3) == Word(0x0c, 0x0d, 0x0e, 0x0f)
    requires ExpandedWord(key, 4) == Word(0x10, 0x11, 0x12, 0x13)
    requires ExpandedWord(key, 5) == Word(0x14, 0x15, 0x16, 0x17)
    requires ExpandedWord(key, 6) == Word(0x18, 0x19, 0x1a, 0x1b)
    requires ExpandedWord(key, 7) == Word(0x1c, 0x1d, 0x1e, 0x1f)
    ensures ExpandedWord(key, 8) == Word(0xa5, 0x73, 0xc2, 0x9f)
    ensures ExpandedWord(key, 9) == Word(0xa1, 0x76, 0xc4, 0x98)
    ensures ExpandedWord(key, 10) == Word(0xa9, 0x7f, 0xce, 0x93)
    ensures ExpandedWord(key, 11) == Word(0xa5, 0x72, 0xc0, 0x9c)
    ensures ExpandedWord(key, 12) == Word(0x16, 0x51, 0xa8, 0xcd)
    ensures ExpandedWord(key, 13) == Word(0x02, 0x44, 0xbe, 0xda)
    ensures ExpandedWord(key, 14) == Word(0x1a, 0x5d, 0xa4, 0xc1)
    ensures ExpandedWord(key, 15) == Word(0x06, 0x40, 0xba, 0xde)
  {
    hide ExpandedWord;
    KeyStep(key, 8, Word(0x00, 0x01, 0x02, 0x03), Word(0x1c, 0x1d, 0x1e, 0x1f), Word(0xa5, 0x73, 0xc2, 0x9f));
    KeyStep(key, 9, Word(0x04, 0x05, 0x06, 0x07), Word(0xa5, 0x73, 0xc2, 0x9f), Word(0xa1, 0x76, 0xc4, 0x98));
    KeyStep(key, 10, Word(0x08, 0x09, 0x0a, 0x0b), Word(0xa1, 0x76, 0xc4, 0x98), Word(0xa9, 0x7f, 0xce, 0x93));
    KeyStep(key, 11, Word(0x0c, 0x0d, 0x0e, 0x0f), Word(0xa9, 0x7f, 0xce, 0x93), Word(0xa5, 0x72, 0xc0, 0x9c));
    KeyStep(key, 12, Word(0x10, 0x11, 0x12, 0x13), Word(0xa5, 0x72, 0xc0, 0x9c), Word(0x16, 0x51, 0xa8, 0xcd));
    KeyStep(key, 13, Word(0x14, 0x15, 0x16, 0x17), Word(0x16, 0x51, 0xa8, 0xcd), Word(0x02, 0x44, 0xbe, 0xda));
    KeyStep(key, 14, Word(0x18, 0x19, 0x1a, 0x1b), Word(0x02, 0x44, 0xbe, 0xda), Word(0x1a, 0x5d, 0xa4, 0xc1));
    KeyStep(key, 15, Word(0x1c, 0x1d, 0x1e, 0x1f), Word(0x1a, 0x5d, 0xa4, 0xc1), Word(0x06, 0x40, 0xba, 0xde));
  }

  lemma KeyWords16(key: Key)
    requires ExpandedWord(key, 8) == Word(0xa5, 0x73, 0xc2, 0x9f)
    requires ExpandedWord(key, 9) == Word(0xa1, 0x76, 0xc4, 0x98)
    requires ExpandedWord(key, 10) == Word(0xa9, 0x7f, 0xce, 0x93)
    requires ExpandedWord(key, 11) == Word(0xa5, 0x72, 0xc0, 0x9c)
    requires ExpandedWord(key, 12) == Word(0x16, 0x51, 0xa8, 0xcd)
    requires ExpandedWord(key, 13) == Word(0x02, 0x44, 0xbe, 0xda)
    requires ExpandedWord(key, 14) == Word(0x1a, 0x5d, 0xa4, 0xc1)
    requires ExpandedWord(key, 15) == Word(0x06, 0x40, 0xba, 0xde)
    ensures ExpandedWord(key, 16) == Word(0xae, 0x87, 0xdf, 0xf0)
    ensures ExpandedWord(key, 17) == Word(0x0f, 0xf1, 0x1b, 0x68)
    ensures ExpandedWord(key, 18) == Word(0xa6, 0x8e, 0xd5, 0xfb)
    ensures ExpandedWord(key, 19) == Word(0x03, 0xfc, 0x15, 0x67)
    ensures ExpandedWord(key, 20) == Word(0x6d, 0xe1, 0xf1, 0x48)
    ensures ExpandedWord(key, 21) == Word(0x6f, 0xa5, 0x4f, 0x92)
    ensures ExpandedWord(key, 22) == Word(0x75, 0xf8, 0xeb, 0x53)
    ensures ExpandedWord(key, 23) == Word(0x73, 0xb8, 0x51, 0x8d)
  {
    hide ExpandedWord;
    KeyStep(key, 16, Word(0xa5, 0x73, 0xc2, 0x9f), Word(0x06, 0x40, 0xba, 0xde), Word(0xae, 0x87, 0xdf, 0xf0));
    KeyStep(key, 17, Word(0xa1, 0x76, 0xc4, 0x98), Word(0xae, 0x87, 0xdf, 0xf0), Word(0x0f, 0xf1, 0x1b, 0x68));
    KeyStep(key, 18, Word(0xa9, 0x7f, 0xce, 0x93), Word(0x0f, 0xf1, 0x1b, 0x68), Word(0xa6, 0x8e, 0xd5, 0xfb));
    KeyStep(key, 19, Word(0xa5, 0x72, 0xc0, 0x9c), Word(0xa6, 0x8e, 0xd5, 0xfb), Word(0x03, 0xfc, 0x15, 0x67));
    KeyStep(key, 20, Word(0x16, 0x51, 0xa8, 0xcd), Word(0x03, 0xfc, 0x15, 0x67), Word(0x6d, 0xe1, 0xf1, 0x48));
    KeyStep(key, 21, Word(0x02, 0x44, 0xbe, 0xda), Word(0x6d, 0xe1, 0xf1, 0x48), Word(0x6f, 0xa5, 0x4f, 0x92));
    KeyStep(key, 22, Word(0x1a, 0x5d, 0xa4, 0xc1), Word(0x6f, 0xa5, 0x4f, 0x92), Word(0x75, 0xf8, 0xeb, 0x53));
    KeyStep(key, 23, Word(0x06, 0x40, 0xba, 0xde), Word(0x75, 0xf8, 0xeb, 0x53), Word(0x73, 0xb8, 0x51, 0x8d));
  }

  lemma KeyWords24(key: Key)
    requires ExpandedWord(key, 16) == Word(0xae, 0x87, 0xdf, 0xf0)
    requires ExpandedWord(key, 17) == Word(0x0f, 0xf1, 0x1b, 0x68)
    requires ExpandedWord(key, 18) == Word(0xa6, 0x8e, 0xd5, 0xfb)
    requires ExpandedWord(key, 19) == Word(0x03, 0xfc, 0x15, 0x67)
    requires ExpandedWord(key, 20) == Word(0x6d, 0xe1, 0xf1, 0x48)
    requires ExpandedWord(key, 21) == Word(0x6f, 0xa5, 0x4f, 0x92)
    requires ExpandedWord(key, 22) == Word(0x75, 0xf8, 0xeb, 0x53)
    requires ExpandedWord(key, 23) == Word(0x73, 0xb8, 0x51, 0x8d)
    ensures ExpandedWord(key, 24) == Word(0xc6, 0x56, 0x82, 0x7f)
    ensures ExpandedWord(key, 25) == Word(0xc9, 0xa7, 0x99, 0x17)
    ensures ExpandedWord(key, 26) == Word(0x6f, 0x29, 0x4c, 0xec)
    ensures ExpandedWord(key, 27) == Word(0x6c, 0xd5, 0x59, 0x8b)
    ensures ExpandedWord(key, 28) == Word(0x3d, 0xe2, 0x3a, 0x75)
    ensures ExpandedWord(key, 29) == Word(0x52, 0x47, 0x75, 0xe7)
    ensures ExpandedWord(key, 30) == Word(0x27, 0xbf, 0x9e, 0xb4)
    ensures ExpandedWord(key, 31) == Word(0x54, 0x07, 0xcf, 0x39)
  {
    hide ExpandedWord;
    KeyStep(key, 24, Word(0xae, 0x87, 0xdf, 0xf0), Word(0x73, 0xb8, 0x51, 0x8d), Word(0xc6, 0x56, 0x82, 0x7f));
    KeyStep(key, 25, Word(0x0f, 0xf1, 0x1b, 0x68), Word(0xc6, 0x56, 0x82, 0x7f), Word(0xc9, 0xa7, 0x99, 0x17));
    KeyStep(key, 26, Word(0xa6, 0x8e, 0xd5, 0xfb), Word(0xc9, 0xa7, 0x99, 0x17), Word(0x6f, 0x29, 0x4c, 0xec));
    KeyStep(key, 27, Word(0x03, 0xfc, 0x15, 0x67), Word(0x6f, 0x29, 0x4c, 0xec), Word(0x6c, 0xd5, 0x59, 0x8b));
    KeyStep(key, 28, Word(0x6d, 0xe1, 0xf1, 0x48), Word(0x6c, 0xd5, 0x59, 0x8b), Word(0x3d, 0xe2, 0x3a, 0x75));
    KeyStep(key, 29, Word(0x6f, 0xa5, 0x4f, 0x92), Word(0x3d, 0xe2, 0x3a, 0x75), Word(0x52, 0x47, 0x75, 0xe7));
    KeyStep(key, 30, Word(0x75, 0xf8, 0xeb, 0x53), Word(0x52, 0x47, 0x75, 0xe7), Word(0x27, 0xbf, 0x9e, 0xb4));
    KeyStep(key, 31, Word(0x73, 0xb8, 0x51, 0x8d), Word(0x27, 0xbf, 0x9e, 0xb4), Word(0x54, 0x07, 0xcf, 0x39));
  }

  lemma KeyWords32(key: Key)
    requires ExpandedWord(key, 24) == Word(0xc6, 0x56, 0x82, 0x7f)
    requires ExpandedWord(key, 25) == Word(0xc9, 0xa7, 0x99, 0x17)
    requires ExpandedWord(key, 26) == Word(0x6f, 0x29, 0x4c, 0xec)
    requires ExpandedWord(key, 27) == Word(0x6c, 0xd5, 0x59, 0x8b)
    requires ExpandedWord(key, 28) == Word(0x3d, 0xe2, 0x3a, 0x75)
    requires ExpandedWord(key, 29) == Word(0x52, 0x47, 0x75, 0xe7)
    requires ExpandedWord(key, 30) == Word(0x27, 0xbf, 0x9e, 0xb4)
    requires ExpandedWord(key, 31) == Word(0x54, 0x07, 0xcf, 0x39)
    ensures ExpandedWord(key, 32) == Word(0x0b, 0xdc, 0x90, 0x5f)
    ensures ExpandedWord(key, 33) == Word(0xc2, 0x7b, 0x09, 0x48)
    ensures ExpandedWord(key, 34) == Word(0xad, 0x52, 0x45, 0xa4)
    ensures ExpandedWord(key, 35) == Word(0xc1, 0x87, 0x1c, 0x2f)
    ensures ExpandedWord(key, 36) == Word(0x45, 0xf5, 0xa6, 0x60)
    ensures ExpandedWord(key, 37) == Word(0x17, 0xb2, 0xd3, 0x87)
    ensures ExpandedWord(key, 38) == Word(0x30, 0x0d, 0x4d, 0x33)
    ensures ExpandedWord(key, 39) == Word(0x64, 0x0a, 0x82, 0x0a)
  {
    hide ExpandedWord;
    KeyStep(key, 32, Word(0xc6, 0x56, 0x82, 0x7f), Word(0x54, 0x07, 0xcf, 0x39), Word(0x0b, 0xdc, 0x90, 0x5f));
    KeyStep(key, 33, Word(0xc9, 0xa7, 0x99, 0x17), Word(0x0b, 0xdc, 0x90, 0x5f), Word(0xc2, 0x7b, 0x09, 0x48));
    KeyStep(key, 34, Word(0x6f, 0x29, 0x4c, 0xec), Word(0xc2, 0x7b, 0x09, 0x48), Word(0xad, 0x52, 0x45, 0xa4));
    KeyStep(key, 35, Word(0x6c, 0xd5, 0x59, 0x8b), Word(0xad, 0x52, 0x45, 0xa4), Word(0xc1, 0x87, 0x1c, 0x2f));
    KeyStep(key, 36, Word(0x3d, 0xe2, 0x3a, 0x75), Word(0xc1, 0x87, 0x1c, 0x2f), Word(0x45, 0xf5, 0xa6, 0x60));
    KeyStep(key, 37, Word(0x52, 0x47, 0x75, 0xe7), Word(0x45, 0xf5, 0xa6, 0x60), Word(0x17, 0xb2, 0xd3, 0x87));
    KeyStep(key, 38, Word(0x27, 0xbf, 0x9e, 0xb4), Word(0x17, 0xb2, 0xd3, 0x87), Word(0x30, 0x0d, 0x4d, 0x33));
    KeyStep(key, 39, Word(0x54, 0x07, 0xcf, 0x39), Word(0x30, 0x0d, 0x4d, 0x33), Word(0x64, 0x0a, 0x82, 0x0a));
  }

  lemma KeyWords40(key: Key)
    requires ExpandedWord(key, 32) == Word(0x0b, 0xdc, 0x90, 0x5f)
    requires ExpandedWord(key, 33) == Word(0xc2, 0x7b, 0x09, 0x48)
    requires ExpandedWord(key, 34) == Word(0xad, 0x52, 0x45, 0xa4)
    requires ExpandedWord(key, 35) == Word(0xc1, 0x87, 0x1c, 0x2f)
    requires ExpandedWord(key, 36) == Word(0x45, 0xf5, 0xa6, 0x60)
    requires ExpandedWord(key, 37) == Word(0x17, 0xb2, 0xd3, 0x87)
    requires ExpandedWord(key, 38) == Word(0x30, 0x0d, 0x4d, 0x33)
    requires ExpandedWord(key, 39) == Word(0x64, 0x0a, 0x82, 0x0a)
    ensures ExpandedWord(key, 40) == Word(0x7c, 0xcf, 0xf7, 0x1c)
    ensures ExpandedWord(key, 41) == Word(0xbe, 0xb4, 0xfe, 0x54)
    ensures ExpandedWord(key, 42) == Word(0x13, 0xe6, 0xbb, 0xf0)
    ensures ExpandedWord(key, 43) == Word(0xd2, 0x61, 0xa7, 0xdf)
    ensures ExpandedWord(key, 44) == Word(0xf0, 0x1a, 0xfa, 0xfe)
    ensures ExpandedWord(key, 45) == Word(0xe7, 0xa8, 0x29, 0x79)
    ensures ExpandedWord(key, 46) == Word(0xd7, 0xa5, 0x64, 0x4a)
    ensures ExpandedWord(key, 47) == Word(0xb3, 0xaf, 0xe6, 0x40)
  {
    hide ExpandedWord;
    KeyStep(key, 40, Word(0x0b, 0xdc, 0x90, 0x5f), Word(0x64, 0x0a, 0x82, 0x0a), Word(0x7c, 0xcf, 0xf7, 0x1c));
    KeyStep(key, 41, Word(0xc2, 0x7b, 0x09, 0x48), Word(0x7c, 0xcf, 0xf7, 0x1c), Word(0xbe, 0xb4, 0xfe, 0x54));
    KeyStep(key, 42, Word(0xad, 0x52, 0x45, 0xa4), Word(0xbe, 0xb4, 0xfe, 0x54), Word(0x13, 0xe6, 0xbb, 0xf0));
    KeyStep(key, 43, Word(0xc1, 0x87, 0x1c, 0x2f), Word(0x13, 0xe6, 0xbb, 0xf0), Word(0xd2, 0x61, 0xa7, 0xdf));
    KeyStep(key, 44, Word(0x45, 0xf5, 0xa6, 0x60), Word(0xd2, 0x61, 0xa7, 0xdf), Word(0xf0, 0x1a, 0xfa, 0xfe));
    KeyStep(key, 45, Word(0x17, 0xb2, 0xd3, 0x87), Word(0xf0, 0x1a, 0xfa, 0xfe), Word(0xe7, 0xa8, 0x29, 0x79));
    KeyStep(key, 46, Word(0x30, 0x0d, 0x4d, 0x33), Word(0xe7, 0xa8, 0x29, 0x79), Word(0xd7, 0xa5, 0x64, 0x4a));
    KeyStep(key, 47, Word(0x64, 0x0a, 0x82, 0x0a), Word(0xd7, 0xa5, 0x64, 0x4a), Word(0xb3, 0xaf, 0xe6, 0x40));
  }

  lemma KeyWords48(key: Key)
    requires ExpandedWord(key, 40) == Word(0x7c, 0xcf, 0xf7, 0x1c)
    requires ExpandedWord(key, 41) == Word(0xbe, 0xb4, 0xfe, 0x54)
    requires ExpandedWord(key, 42) == Word(0x13, 0xe6, 0xbb, 0xf0)
    requires ExpandedWord(key, 43) == Word(0xd2, 0x61, 0xa7, 0xdf)
    requires ExpandedWord(key, 44) == Word(0xf0, 0x1a, 0xfa, 0xfe)
    requires ExpandedWord(key, 45) == Word(0xe7, 0xa8, 0x29, 0x79)
    requires ExpandedWord(key, 46) == Word(0xd7, 0xa5, 0x64, 0x4a)
    requires ExpandedWord(key, 47) == Word(0xb3, 0xaf, 0xe6, 0x40)
    ensures ExpandedWord(key, 48) == Word(0x25, 0x41, 0xfe, 0x71)
    ensures ExpandedWord(key, 49) == Word(0x9b, 0xf5, 0x00, 0x25)
    ensures ExpandedWord(key, 50) == Word(0x88, 0x13, 0xbb, 0xd5)
    ensures ExpandedWord(key, 51) == Word(0x5a, 0x72, 0x1c, 0x0a)
    ensures ExpandedWord(key, 52) == Word(0x4e, 0x5a, 0x66, 0x99)
    ensures ExpandedWord(key, 53) == Word(0xa9, 0xf2, 0x4f, 0xe0)
    ensures ExpandedWord(key, 54) == Word(0x7e, 0x57, 0x2b, 0xaa)
    ensures ExpandedWord(key, 55) == Word(0xcd, 0xf8, 0xcd, 0xea)
  {
    hide ExpandedWord;
    KeyStep(key, 48, Word(0x7c, 0xcf, 0xf7, 0x1c), Word(0xb3, 0xaf, 0xe6, 0x40), Word(0x25, 0x41, 0xfe, 0x71));
    KeyStep(key, 49, Word(0xbe, 0xb4, 0xfe, 0x54), Word(0x25, 0x41, 0xfe, 0x71), Word(0x9b, 0xf5, 0x00, 0x25));
    KeyStep(key, 50, Word(0x13, 0xe6, 0xbb, 0xf0), Word(0x9b, 0xf5, 0x00, 0x25), Word(0x88, 0x13, 0xbb, 0xd5));
    KeyStep(key, 51, Word(0xd2, 0x61, 0xa7, 0xdf), Word(0x88, 0x13, 0xbb, 0xd5), Word(0x5a, 0x72, 0x1c, 0x0a));
    KeyStep(key, 52, Word(0xf0, 0x1a, 0xfa, 0xfe), Word(0x5a, 0x72, 0x1c, 0x0a), Word(0x4e, 0x5a, 0x66, 0x99));
    KeyStep(key, 53, Word(0xe7, 0xa8, 0x29, 0x79), Word(0x4e, 0x5a, 0x66, 0x99), Word(0xa9, 0xf2, 0x4f, 0xe0));
    KeyStep(key, 54, Word(0xd7, 0xa5, 0x64, 0x4a), Word(0xa9, 0xf2, 0x4f, 0xe0), Word(0x7e, 0x57, 0x2b, 0xaa));
    KeyStep(key, 55, Word(0xb3, 0xaf, 0xe6, 0x40), Word(0x7e, 0x57, 0x2b, 0xaa), Word(0xcd, 0xf8, 0xcd, 0xea));
  }

  lemma KeyWords56(key: Key)
    requires ExpandedWord(key, 48) == Word(0x25, 0x41, 0xfe, 0x71)
    requires ExpandedWord(key, 49) == Word(0x9b, 0xf5, 0x00, 0x25)
    requires ExpandedWord(key, 50) == Word(0x88, 0x13, 0xbb, 0xd5)
    requires ExpandedWord(key, 51) == Word(0x5a, 0x72, 0x1c, 0x0a)
    requires ExpandedWord(key, 52) == Word(0x4e, 0x5a, 0x66, 0x99)
    requires ExpandedWord(key, 53) == Word(0xa9, 0xf2, 0x4f, 0xe0)
    requires ExpandedWord(key, 54) == Word(0x7e, 0x57, 0x2b, 0xaa)
    requires ExpandedWord(key, 55) == Word(0xcd, 0xf8, 0xcd, 0xea)
    ensures ExpandedWord(key, 56) == Word(0x24, 0xfc, 0x79, 0xcc)
    ensures ExpandedWord(key, 57) == Word(0xbf, 0x09, 0x79, 0xe9)
    ensures ExpandedWord(key, 58) == Word(0x37, 0x1a, 0xc2, 0x3c)
    ensures ExpandedWord(key, 59) == Word(0x6d, 0x68, 0xde, 0x36)
  {
    hide ExpandedWord;
    KeyStep(key, 56, Word(0x25, 0x41, 0xfe, 0x71), Word(0xcd, 0xf8, 0xcd, 0xea), Word(0x24, 0xfc, 0x79, 0xcc));
    KeyStep(key, 57, Word(0x9b, 0xf5, 0x00, 0x25), Word(0x24, 0xfc, 0x79, 0xcc), Word(0xbf, 0x09, 0x79, 0xe9));
    KeyStep(key, 58, Word(0x88, 0x13, 0xbb, 0xd5), Word(0xbf, 0x09, 0x79, 0xe9), Word(0x37, 0x1a, 0xc2, 0x3c));
    KeyStep(key, 59, Word(0x5a, 0x72, 0x1c, 0x0a), Word(0x37, 0x1a, 0xc2, 0x3c), Word(0x6d, 0x68, 0xde, 0x36));
  }

  lemma RoundKeys0(key: Key)
    requires ExpandedWord(key, 0) == Word(0x00, 0x01, 0x02, 0x03)
    requires ExpandedWord(key, 1) == Word(0x04, 0x05, 0x06, 0x07)
    requires ExpandedWord(key, 2) == Word(0x08, 0x09, 0x0a, 0x0b)
    requires ExpandedWord(key, 3) == Word(0x0c, 0x0d, 0x0e, 0x0f)
    requires ExpandedWord(key, 4) == Word(0x10, 0x11, 0x12, 0x13)
    requires ExpandedWord(key, 5) == Word(0x14, 0x15, 0x16, 0x17)
    requires ExpandedWord(key, 6) == Word(0x18, 0x19, 0x1a, 0x1b)
    requires ExpandedWord(key, 7) == Word(0x1c, 0x1d, 0x1e, 0x1f)
    requires ExpandedWord(key, 8) == Word(0xa5, 0x73, 0xc2, 0x9f)
    requires ExpandedWord(key, 9) == Word(0xa1, 0x76, 0xc4, 0x98)
    requires ExpandedWord(key, 10) == Word(0xa9, 0x7f, 0xce, 0x93)
    requires ExpandedWord(key, 11) == Word(0xa5, 0x72, 0xc0, 0x9c)
    requires ExpandedWord(key, 12) == Word(0x16, 0x51, 0xa8, 0xcd)
    requires ExpandedWord(key, 13) == Word(0x02, 0x44, 0xbe, 0xda)
    requires ExpandedWord(key, 14) == Word(0x1a, 0x5d, 0xa4, 0xc1)
    requires ExpandedWord(key, 15) == Word(0x06, 0x40, 0xba, 0xde)
    requires ExpandedWord(key, 16) == Word(0xae, 0x87, 0xdf, 0xf0)
    requires ExpandedWord(key, 17) == Word(0x0f, 0xf1, 0x1b, 0x68)
    requires ExpandedWord(key, 18) == Word(0xa6, 0x8e, 0xd5, 0xfb)
    requires ExpandedWord(key, 19) == Word(0x03, 0xfc, 0x15, 0x67)
    ensures RoundKey(Expand(key), 0) == State(Word(0x00, 0x01, 0x02, 0x03), Word(0x04, 0x05, 0x06, 0x07), Word(0x08, 0x09, 0x0a, 0x0b), Word(0x0c, 0x0d, 0x0e, 0x0f))
    ensures RoundKey(Expand(key), 1) == State(Word(0x10, 0x11, 0x12, 0x13), Word(0x14, 0x15, 0x16, 0x17), Word(0x18, 0x19, 0x1a, 0x1b), Word(0x1c, 0x1d, 0x1e, 0x1f))
    ensures RoundKey(Expand(key), 2) == State(Word(0xa5, 0x73, 0xc2, 0x9f), Word(0xa1, 0x76, 0xc4, 0x98), Word(0xa9, 0x7f, 0xce, 0x93), Word(0xa5, 0x72, 0xc0, 0x9c))
    ensures RoundKey(Expand(key), 3) == State(Word(0x16, 0x51, 0xa8, 0xcd), Word(0x02, 0x44, 0xbe, 0xda), Word(0x1a, 0x5d, 0xa4, 0xc1), Word(0x06, 0x40, 0xba, 0xde))
    ensures RoundKey(Expand(key), 4) == State(Word(0xae, 0x87, 0xdf, 0xf0), Word(0x0f, 0xf1, 0x1b, 0x68), Word(0xa6, 0x8e, 0xd5, 0xfb), Word(0x03, 0xfc, 0x15, 0x67))
  {
    hide ExpandedWord, Expand, RoundKey;
    RoundKeyWords(key, 0);
    RoundKeyWords(key, 1);
    RoundKeyWords(key, 2);
    RoundKeyWords(key, 3);
    RoundKeyWords(key, 4);
  }

  lemma RoundKeys5(key: Key)
    requires ExpandedWord(key, 20) == Word(0x6d, 0xe1, 0xf1, 0x48)
    requires ExpandedWord(key, 21) == Word(0x6f, 0xa5, 0x4f, 0x92)
    requires ExpandedWord(key, 22) == Word(0x75, 0xf8, 0xeb, 0x53)
    requires ExpandedWord(key, 23) == Word(0x73, 0xb8, 0x51, 0x8d)
    requires ExpandedWord(key, 24) == Word(0xc6, 0x56, 0x82, 0x7f)
    requires ExpandedWord(key, 25) == Word(0xc9, 0xa7, 0x99, 0x17)
    requires ExpandedWord(key, 26) == Word(0x6f, 0x29, 0x4c, 0xec)
    requires ExpandedWord(key, 27) == Word(0x6c, 0xd5, 0x59, 0x8b)
    requires ExpandedWord(key, 28) == Word(0x3d, 0xe2, 0x3a, 0x75)
    requires ExpandedWord(key, 29) == Word(0x52, 0x47, 0x75, 0xe7)
    requires ExpandedWord(key, 30) == Word(0x27, 0xbf, 0x9e, 0xb4)
    requires ExpandedWord(key, 31) == Word(0x54, 0x07, 0xcf, 0x39)
    requires ExpandedWord(key, 32) == Word(0x0b, 0xdc, 0x90, 0x5f)
    requires ExpandedWord(key, 33) == Word(0xc2, 0x7b, 0x09, 0x48)
    requires ExpandedWord(key, 34) == Word(0xad, 0x52, 0x45, 0xa4)
    requires ExpandedWord(key, 35) == Word(0xc1, 0x87, 0x1c, 0x2f)
    requires ExpandedWord(key, 36) == Word(0x45, 0xf5, 0xa6, 0x60)
    requires ExpandedWord(key, 37) == Word(0x17, 0xb2, 0xd3, 0x87)
    requires ExpandedWord(key, 38) == Word(0x30, 0x0d, 0x4d, 0x33)
    requires ExpandedWord(key, 39) == Word(0x64, 0x0a, 0x82, 0x0a)
    ensures RoundKey(Expand(key), 5) == State(Word(0x6d, 0xe1, 0xf1, 0x48), Word(0x6f, 0xa5, 0x4f, 0x92), Word(0x75, 0xf8, 0xeb, 0x53), Word(0x73, 0xb8, 0x51, 0x8d))
    ensures RoundKey(Expand(key), 6) == State(Word(0xc6, 0x56, 0x82, 0x7f), Word(0xc9, 0xa7, 0x99, 0x17), Word(0x6f, 0x29, 0x4c, 0xec), Word(0x6c, 0xd5, 0x59, 0x8b))
    ensures RoundKey(Expand(key), 7) == State(Word(0x3d, 0xe2, 0x3a, 0x75), Word(0x52, 0x47, 0x75, 0xe7), Word(0x27, 0xbf, 0x9e, 0xb4), Word(0x54, 0x07, 0xcf, 0x39))
    ensures RoundKey(Expand(key), 8) == State(Word(0x0b, 0xdc, 0x90, 0x5f), Word(0xc2, 0x7b, 0x09, 0x48), Word(0xad, 0x52, 0x45, 0xa4), Word(0xc1, 0x87, 0x1c, 0x2f))
    ensures RoundKey(Expand(key), 9) == State(Word(0x45, 0xf5, 0xa6, 0x60), Word(0x17, 0xb2, 0xd3, 0x87), Word(0x30, 0x0d, 0x4d, 0x33), Word(0x64, 0x0a, 0x82, 0x0a))
  {
    hide ExpandedWord, Expand, RoundKey;
    RoundKeyWords(key, 5);
    RoundKeyWords(key, 6);
    RoundKeyWords(key, 7);
    RoundKeyWords(key, 8);
    RoundKeyWords(key, 9);
  }

  lemma RoundKeys10(key: Key)
    requires ExpandedWord(key, 40) == Word(0x7c, 0xcf, 0xf7, 0x1c)
    requires ExpandedWord(key, 41) == Word(0xbe, 0xb4, 0xfe, 0x54)
    requires ExpandedWord(key, 42) == Word(0x13, 0xe6, 0xbb, 0xf0)
    requires ExpandedWord(key, 43) == Word(0xd2, 0x61, 0xa7, 0xdf)
    requires ExpandedWord(key, 44) == Word(0xf0, 0x1a, 0xfa, 0xfe)
    requires ExpandedWord(key, 45) == Word(0xe7, 0xa8, 0x29, 0x79)
    requires ExpandedWord(key, 46) == Word(0xd7, 0xa5, 0x64, 0x4a)
    requires ExpandedWord(key, 47) == Word(0xb3, 0xaf, 0xe6, 0x40)
    requires ExpandedWord(key, 48) == Word(0x25, 0x41, 0xfe, 0x71)
    requires ExpandedWord(key, 49) == Word(0x9b, 0xf5, 0x00, 0x25)
    requires ExpandedWord(key, 50) == Word(0x88, 0x13, 0xbb, 0xd5)
    requires ExpandedWord(key, 51) == Word(0x5a, 0x72, 0x1c, 0x0a)
    requires ExpandedWord(key, 52) == Word(0x4e, 0x5a, 0x66, 0x99)
    requires ExpandedWord(key, 53) == Word(0xa9, 0xf2, 0x4f, 0xe0)
    requires ExpandedWord(key, 54) == Word(0x7e, 0x57, 0x2b, 0xaa)
    requires ExpandedWord(key, 55) == Word(0xcd, 0xf8, 0xcd, 0xea)
    requires ExpandedWord(key, 56) == Word(0x24, 0xfc, 0x79, 0xcc)
    requires ExpandedWord(key, 57) == Word(0xbf, 0x09, 0x79, 0xe9)
    requires ExpandedWord(key, 58) == Word(0x37, 0x1a, 0xc2, 0x3c)
    requires ExpandedWord(key, 59) == Word(0x6d, 0x68, 0xde, 0x36)
    ensures RoundKey(Expand(key), 10) == State(Word(0x7c, 0xcf, 0xf7, 0x1c), Word(0xbe, 0xb4, 0xfe, 0x54), Word(0x13, 0xe6, 0xbb, 0xf0), Word(0xd2, 0x61, 0xa7, 0xdf))
    ensures RoundKey(Expand(key), 11) == State(Word(0xf0, 0x1a, 0xfa, 0xfe), Word(0xe7, 0xa8, 0x29, 0x79), Word(0xd7, 0xa5, 0x64, 0x4a), Word(0xb3, 0xaf, 0xe6, 0x40))
    ensures RoundKey(Expand(key), 12) == State(Word(0x25, 0x41, 0xfe, 0x71), Word(0x9b, 0xf5, 0x00, 0x25), Word(0x88, 0x13, 0xbb, 0xd5), Word(0x5a, 0x72, 0x1c, 0x0a))
    ensures RoundKey(Expand(key), 13) == State(Word(0x4e, 0x5a, 0x66, 0x99), Word(0xa9, 0xf2, 0x4f, 0xe0), Word(0x7e, 0x57, 0x2b, 0xaa), Word(0xcd, 0xf8, 0xcd, 0xea))
    ensures RoundKey(Expand(key), 14) == State(Word(0x24, 0xfc, 0x79, 0xcc), Word(0xbf, 0x09, 0x79, 0xe9), Word(0x37, 0x1a, 0xc2, 0x3c), Word(0x6d, 0x68, 0xde, 0x36))
  {
    hide ExpandedWord, Expand, RoundKey;
    RoundKeyWords(key, 10);
    RoundKeyWords(key, 11);
    RoundKeyWords(key, 12);
    RoundKeyWords(key, 13);
    RoundKeyWords(key, 14);
  }

  // ---------- Its rounds ----------

  /** The sums of section 5.1.3 for one column. */
  lemma MixedColumn(a: bv8, b: bv8, c: bv8, d: bv8)
    ensures Times(MIX, Word(a, b, c, d))
         == Word(XTime(a) ^ XTime(b) ^ b ^ c ^ d, XTime(b) ^ XTime(c) ^ c ^ d ^ a,
                 XTime(c) ^ XTime(d) ^ d ^ a ^ b, XTime(d) ^ XTime(a) ^ a ^ b ^ c)
  {
    hide Dot, XTime;
    MixedByte(a, b, c, d);
    MixedByte(b, c, d, a);
    MixedByte(c, d, a, b);
    MixedByte(d, a, b, c);
  }

  lemma MixedByte(a: bv8, b: bv8, c: bv8, d: bv8)
    ensures Dot(MIX, a, b, c, d) == XTime(a) ^ XTime(b) ^ b ^ c ^ d
  {
    hide GfMul, XTime, Sum;
    TimesSmall(a);
    TimesSmall(b);
    TimesSmall(c);
    TimesSmall(d);
    FiveTerms(XTime(a), XTime(b), b, c, d);
  }

  lemma FiveTerms(a: bv8, x: bv8, b: bv8, c: bv8, d: bv8)
    ensures Sum(a, x ^ b, c, d) == a ^ x ^ b ^ c ^ d
  {
  }

  lemma TimesSmall(x: bv8)
    ensures GfMul(x, 1) == x && GfMul(x, 2) == XTime(x) && GfMul(x, 3) == XTime(x) ^ x
  {
    hide XTime;
  }

  lemma MixedState(s: State, t: State)
    requires t.c0 == Times(MIX, s.c0) && t.c1 == Times(MIX, s.c1) && t.c2 == Times(MIX, s.c2) && t.c3 == Times(MIX, s.c3)
    ensures MixColumns(s) == t
  {
  }

  lemma Round1()
    ensures Xor(MixColumns(ShiftRows(SubBytes(State(Word(0x00, 0x10, 0x20, 0x30), Word(0x40, 0x50, 0x60, 0x70), Word(0x80, 0x90, 0xa0, 0xb0), Word(0xc0, 0xd0, 0xe0, 0xf0))))),
                State(Word(0x10, 0x11, 0x12, 0x13), Word(0x14, 0x15, 0x16, 0x17), Word(0x18, 0x19, 0x1a, 0x1b), Word(0x1c, 0x1d, 0x1e, 0x1f)))
         == State(Word(0x4f, 0x63, 0x76, 0x06), Word(0x43, 0xe0, 0xaa, 0x85), Word(0xef, 0xa7, 0x21, 0x32), Word(0x01, 0xa4, 0xe7, 0x05))
  {
    assert ShiftRows(SubBytes(State(Word(0x00, 0x10, 0x20, 0x30), Word(0x40, 0x50, 0x60, 0x70), Word(0x80, 0x90, 0xa0, 0xb0), Word(0xc0, 0xd0, 0xe0, 0xf0))))
        == State(Word(0x63, 0x53, 0xe0, 0x8c), Word(0x09, 0x60, 0xe1, 0x04), Word(0xcd, 0x70, 0xb7, 0x51), Word(0xba, 0xca, 0xd0, 0xe7));
    hide SBox, Times;
    MixedColumn(0x63, 0x53, 0xe0, 0x8c);
    MixedColumn(0x09, 0x60, 0xe1, 0x04);
    MixedColumn(0xcd, 0x70, 0xb7, 0x51);
    MixedColumn(0xba, 0xca, 0xd0, 0xe7);
  }

  lemma Round2()
    ensures Xor(MixColumns(ShiftRows(SubBytes(State(Word(0x4f, 0x63, 0x76, 0x06), Word(0x43, 0xe0, 0xaa, 0x85), Word(0xef, 0xa7, 0x21, 0x32), Word(0x01, 0xa4, 0xe7, 0x05))))),
                State(Word(0xa5, 0x73, 0xc2, 0x9f), Word(0xa1, 0x76, 0xc4, 0x98), Word(0xa9, 0x7f, 0xce, 0x93), Word(0xa5, 0x72, 0xc0, 0x9c)))
         == State(Word(0x18, 0x59, 0xfb, 0xc2), Word(0x8a, 0x1c, 0x00, 0xa0), Word(0x78, 0xed, 0x8a, 0xad), Word(0xc4, 0x2f, 0x61, 0x09))
  {
    assert ShiftRows(SubBytes(State(Word(0x4f, 0x63, 0x76, 0x06), Word(0x43, 0xe0, 0xaa, 0x85), Word(0xef, 0xa7, 0x21, 0x32), Word(0x01, 0xa4, 0xe7, 0x05))))
        == State(Word(0x84, 0xe1, 0xfd, 0x6b), Word(0x1a, 0x5c, 0x94, 0x6f), Word(0xdf, 0x49, 0x38, 0x97), Word(0x7c, 0xfb, 0xac, 0x23));
    hide SBox, Times;
    MixedColumn(0x84, 0xe1, 0xfd, 0x6b);
    MixedColumn(0x1a, 0x5c, 0x94, 0x6f);
    MixedColumn(0xdf, 0x49, 0x38, 0x97);
    MixedColumn(0x7c, 0xfb, 0xac, 0x23);
  }

  lemma Round3()
    ensures Xor(MixColumns(ShiftRows(SubBytes(State(Word(0x18, 0x59, 0xfb, 0xc2), Word(0x8a, 0x1c, 0x00, 0xa0), Word(0x78, 0xed, 0x8a, 0xad), Word(0xc4, 0x2f, 0x61, 0x09))))),
                State(Word(0x16, 0x51, 0xa8, 0xcd), Word(0x02, 0x44, 0xbe, 0xda), Word(0x1a, 0x5d, 0xa4, 0xc1), Word(0x06, 0x40, 0xba, 0xde)))
         == State(Word(0x97, 0x5c, 0x66, 0xc1), Word(0xcb, 0x9f, 0x3f, 0xa8), Word(0xa9, 0x3a, 0x28, 0xdf), Word(0x8e, 0xe1, 0x0f, 0x63))
  {
    assert ShiftRows(SubBytes(State(Word(0x18, 0x59, 0xfb, 0xc2), Word(0x8a, 0x1c, 0x00, 0xa0), Word(0x78, 0xed, 0x8a, 0xad), Word(0xc4, 0x2f, 0x61, 0x09))))
        == State(Word(0xad, 0x9c, 0x7e, 0x01), Word(0x7e, 0x55, 0xef, 0x25), Word(0xbc, 0x15, 0x0f, 0xe0), Word(0x1c, 0xcb, 0x63, 0x95));
    hide SBox, Times;
    MixedColumn(0xad, 0x9c, 0x7e, 0x01);
    MixedColumn(0x7e, 0x55, 0xef, 0x25);
    MixedColumn(0xbc, 0x15, 0x0f, 0xe0);
    MixedColumn(0x1c, 0xcb, 0x63, 0x95);
  }

  lemma Round4()
    ensures Xor(MixColumns(ShiftRows(SubBytes(State(Word(0x97, 0x5c, 0x66, 0xc1), Word(0xcb, 0x9f, 0x3f, 0xa8), Word(0xa9, 0x3a, 0x28, 0xdf), Word(0x8e, 0xe1, 0x0f, 0x63))))),
                State(Word(0xae, 0x87, 0xdf, 0xf0), Word(0x0f, 0xf1, 0x1b, 0x68), Word(0xa6, 0x8e, 0xd5, 0xfb), Word(0x03, 0xfc, 0x15, 0x67)))
         == State(Word(0x1c, 0x05, 0xf2, 0x71), Word(0xa4, 0x17, 0xe0, 0x4f), Word(0xf9, 0x21, 0xc5, 0xc1), Word(0x04, 0x70, 0x15, 0x54))
  {
    assert ShiftRows(SubBytes(State(Word(0x97, 0x5c, 0x66, 0xc1), Word(0xcb, 0x9f, 0x3f, 0xa8), Word(0xa9, 0x3a, 0x28, 0xdf), Word(0x8e, 0xe1, 0x0f, 0x63))))
        == State(Word(0x88, 0xdb, 0x34, 0xfb), Word(0x1f, 0x80, 0x76, 0x78), Word(0xd3, 0xf8, 0x33, 0xc2), Word(0x19, 0x4a, 0x75, 0x9e));
    hide SBox, Times;
    MixedColumn(0x88, 0xdb, 0x34, 0xfb);
    MixedColumn(0x1f, 0x80, 0x76, 0x78);
    MixedColumn(0xd3, 0xf8, 0x33, 0xc2);
    MixedColumn(0x19, 0x4a, 0x75, 0x9e);
  }

  lemma Round5()
    ensures Xor(MixColumns(ShiftRows(SubBytes(State(Word(0x1c, 0x05, 0xf2, 0x71), Word(0xa4, 0x17, 0xe0, 0x4f), Word(0xf9, 0x21, 0xc5, 0xc1), Word(0x04, 0x70, 0x15, 0x54))))),
                State(Word(0x6d, 0xe1, 0xf1, 0x48), Word(0x6f, 0xa5, 0x4f, 0x92), Word(0x75, 0xf8, 0xeb, 0x53), Word(0x73, 0xb8, 0x51, 0x8d)))
         == State(Word(0xc3, 0x57, 0xaa, 0xe1), Word(0x1b, 0x45, 0xb7, 0xb0), Word(0xa2, 0xc7, 0xbd, 0x28), Word(0xa8, 0xdc, 0x99, 0xfa))
  {
    assert ShiftRows(SubBytes(State(Word(0x1c, 0x05, 0xf2, 0x71), Word(0xa4, 0x17, 0xe0, 0x4f), Word(0xf9, 0x21, 0xc5, 0xc1), Word(0x04, 0x70, 0x15, 0x54))))
        == State(Word(0x9c, 0xf0, 0xa6, 0x20), Word(0x49, 0xfd, 0x59, 0xa3), Word(0x99, 0x51, 0x89, 0x84), Word(0xf2, 0x6b, 0xe1, 0x78));
    hide SBox, Times;
    MixedColumn(0x9c, 0xf0, 0xa6, 0x20);
    MixedColumn(0x49, 0xfd, 0x59, 0xa3);
    MixedColumn(0x99, 0x51, 0x89, 0x84);
    MixedColumn(0xf2, 0x6b, 0xe1, 0x78);
  }

  lemma Round6()
    ensures Xor(MixColumns(ShiftRows(SubBytes(State(Word(0xc3, 0x57, 0xaa, 0xe1), Word(0x1b, 0x45, 0xb7, 0xb0), Word(0xa2, 0xc7, 0xbd, 0x28), Word(0xa8, 0xdc, 0x99, 0xfa))))),
                State(Word(0xc6, 0x56, 0x82, 0x7f), Word(0xc9, 0xa7, 0x99, 0x17), Word(0x6f, 0x29, 0x4c, 0xec), Word(0x6c, 0xd5, 0x59, 0x8b)))
         == State(Word(0x7f, 0x07, 0x41, 0x43), Word(0xcb, 0x4e, 0x24, 0x3e), Word(0xc1, 0x0c, 0x81, 0x5d), Word(0x83, 0x75, 0xd5, 0x4c))
  {
    assert ShiftRows(SubBytes(State(Word(0xc3, 0x57, 0xaa, 0xe1), Word(0x1b, 0x45, 0xb7, 0xb0), Word(0xa2, 0xc7, 0xbd, 0x28), Word(0xa8, 0xdc, 0x99, 0xfa))))
        == State(Word(0x2e, 0x6e, 0x7a, 0x2d), Word(0xaf, 0xc6, 0xee, 0xf8), Word(0x3a, 0x86, 0xac, 0xe7), Word(0xc2, 0x5b, 0xa9, 0x34));
    hide SBox, Times;
    MixedColumn(0x2e, 0x6e, 0x7a, 0x2d);
    MixedColumn(0xaf, 0xc6, 0xee, 0xf8);
    MixedColumn(0x3a, 0x86, 0xac, 0xe7);
    MixedColumn(0xc2, 0x5b, 0xa9, 0x34);
  }

  lemma Round7()
    ensures Xor(MixColumns(ShiftRows(SubBytes(State(Word(0x7f, 0x07, 0x41, 0x43), Word(0xcb, 0x4e, 0x24, 0x3e), Word(0xc1, 0x0c, 0x81, 0x5d), Word(0x83, 0x75, 0xd5, 0x4c))))),
                State(Word(0x3d, 0xe2, 0x3a, 0x75), Word(0x52, 0x47, 0x75, 0xe7), Word(0x27, 0xbf, 0x9e, 0xb4), Word(0x54, 0x07, 0xcf, 0x39)))
         == State(Word(0xd6, 0x53, 0xa4, 0x69), Word(0x6c, 0xa0, 0xbc, 0x0f), Word(0x5a, 0xca, 0xab, 0x5d), Word(0xb9, 0x6c, 0x5e, 0x7d))
  {
    assert ShiftRows(SubBytes(State(Word(0x7f, 0x07, 0x41, 0x43), Word(0xcb, 0x4e, 0x24, 0x3e), Word(0xc1, 0x0c, 0x81, 0x5d), Word(0x83, 0x75, 0xd5, 0x4c))))
        == State(Word(0xd2, 0x2f, 0x0c, 0x29), Word(0x1f, 0xfe, 0x03, 0x1a), Word(0x78, 0x9d, 0x83, 0xb2), Word(0xec, 0xc5, 0x36, 0x4c));
    hide SBox, Times;
    MixedColumn(0xd2, 0x2f, 0x0c, 0x29);
    MixedColumn(0x1f, 0xfe, 0x03, 0x1a);
    MixedColumn(0x78, 0x9d, 0x83, 0xb2);
    MixedColumn(0xec, 0xc5, 0x36, 0x4c);
  }

  lemma Round8()
    ensures Xor(MixColumns(ShiftRows(SubBytes(State(Word(0xd6, 0x53, 0xa4, 0x69), Word(0x6c, 0xa0, 0xbc, 0x0f), Word(0x5a, 0xca, 0xab, 0x5d), Word(0xb9, 0x6c, 0x5e, 0x7d))))),
                State(Word(0x0b, 0xdc, 0x90, 0x5f), Word(0xc2, 0x7b, 0x09, 0x48), Word(0xad, 0x52, 0x45, 0xa4), Word(0xc1, 0x87, 0x1c, 0x2f)))
         == State(Word(0x5a, 0xa8, 0x58, 0x39), Word(0x5f, 0xd2, 0x8d, 0x7d), Word(0x05, 0xe1, 0xa3, 0x88), Word(0x68, 0xf3, 0xb9, 0xc5))
  {
    assert ShiftRows(SubBytes(State(Word(0xd6, 0x53, 0xa4, 0x69), Word(0x6c, 0xa0, 0xbc, 0x0f), Word(0x5a, 0xca, 0xab, 0x5d), Word(0xb9, 0x6c, 0x5e, 0x7d))))
        == State(Word(0xf6, 0xe0, 0x62, 0xff), Word(0x50, 0x74, 0x58, 0xf9), Word(0xbe, 0x50, 0x49, 0x76), Word(0x56, 0xed, 0x65, 0x4c));
    hide SBox, Times;
    MixedColumn(0xf6, 0xe0, 0x62, 0xff);
    MixedColumn(0x50, 0x74, 0x58, 0xf9);
    MixedColumn(0xbe, 0x50, 0x49, 0x76);
    MixedColumn(0x56, 0xed, 0x65, 0x4c);
  }

  lemma Round9()
    ensures Xor(MixColumns(ShiftRows(SubBytes(State(Word(0x5a, 0xa8, 0x58, 0x39), Word(0x5f, 0xd2, 0x8d, 0x7d), Word(0x05, 0xe1, 0xa3, 0x88), Word(0x68, 0xf3, 0xb9, 0xc5))))),
                State(Word(0x45, 0xf5, 0xa6, 0x60), Word(0x17, 0xb2, 0xd3, 0x87), Word(0x30, 0x0d, 0x4d, 0x33), Word(0x64, 0x0a, 0x82, 0x0a)))
         == State(Word(0x4a, 0x82, 0x48, 0x51), Word(0xc5, 0x7e, 0x7e, 0x47), Word(0x64, 0x3d, 0xe5, 0x0c), Word(0x2a, 0xf3, 0xe8, 0xc9))
  {
    assert ShiftRows(SubBytes(State(Word(0x5a, 0xa8, 0x58, 0x39), Word(0x5f, 0xd2, 0x8d, 0x7d), Word(0x05, 0xe1, 0xa3, 0x88), Word(0x68, 0xf3, 0xb9, 0xc5))))
        == State(Word(0xbe, 0xb5, 0x0a, 0xa6), Word(0xcf, 0xf8, 0x56, 0x12), Word(0x6b, 0x0d, 0x6a, 0xff), Word(0x45, 0xc2, 0x5d, 0xc4));
    hide SBox, Times;
    MixedColumn(0xbe, 0xb5, 0x0a, 0xa6);
    MixedColumn(0xcf, 0xf8, 0x56, 0x12);
    MixedColumn(0x6b, 0x0d, 0x6a, 0xff);
    MixedColumn(0x45, 0xc2, 0x5d, 0xc4);
  }

  lemma Round10()
    ensures Xor(MixColumns(ShiftRows(SubBytes(State(Word(0x4a, 0x82, 0x48, 0x51), Word(0xc5, 0x7e, 0x7e, 0x47), Word(0x64, 0x3d, 0xe5, 0x0c), Word(0x2a, 0xf3, 0xe8, 0xc9))))),
                State(Word(0x7c, 0xcf, 0xf7, 0x1c), Word(0xbe, 0xb4, 0xfe, 0x54), Word(0x13, 0xe6, 0xbb, 0xf0), Word(0xd2, 0x61, 0xa7, 0xdf)))
         == State(Word(0xc1, 0x49, 0x07, 0xf6), Word(0xca, 0x3b, 0x3a, 0xa0), Word(0x70, 0xe9, 0xaa, 0x31), Word(0x3b, 0x52, 0xb5, 0xec))
  {
    assert ShiftRows(SubBytes(State(Word(0x4a, 0x82, 0x48, 0x51), Word(0xc5, 0x7e, 0x7e, 0x47), Word(0x64, 0x3d, 0xe5, 0x0c), Word(0x2a, 0xf3, 0xe8, 0xc9))))
        == State(Word(0xd6, 0xf3, 0xd9, 0xdd), Word(0xa6, 0x27, 0x9b, 0xd1), Word(0x43, 0x0d, 0x52, 0xa0), Word(0xe5, 0x13, 0xf3, 0xfe));
    hide SBox, Times;
    MixedColumn(0xd6, 0xf3, 0xd9, 0xdd);
    MixedColumn(0xa6, 0x27, 0x9b, 0xd1);
    MixedColumn(0x43, 0x0d, 0x52, 0xa0);
    MixedColumn(0xe5, 0x13, 0xf3, 0xfe);
  }

  lemma Round11()
    ensures Xor(MixColumns(ShiftRows(SubBytes(State(Word(0xc1, 0x49, 0x07, 0xf6), Word(0xca, 0x3b, 0x3a, 0xa0), Word(0x70, 0xe9, 0xaa, 0x31), Word(0x3b, 0x52, 0xb5, 0xec))))),
                State(Word(0xf0, 0x1a, 0xfa, 0xfe), Word(0xe7, 0xa8, 0x29, 0x79), Word(0xd7, 0xa5, 0x64, 0x4a), Word(0xb3, 0xaf, 0xe6, 0x40)))
         == State(Word(0x5f, 0x9c, 0x6a, 0xbf), Word(0xba, 0xc6, 0x34, 0xaa), Word(0x50, 0x40, 0x9f, 0xa7), Word(0x66, 0x67, 0x76, 0x53))
  {
    assert ShiftRows(SubBytes(State(Word(0xc1, 0x49, 0x07, 0xf6), Word(0xca, 0x3b, 0x3a, 0xa0), Word(0x70, 0xe9, 0xaa, 0x31), Word(0x3b, 0x52, 0xb5, 0xec))))
        == State(Word(0x78, 0xe2, 0xac, 0xce), Word(0x74, 0x1e, 0xd5, 0x42), Word(0x51, 0x00, 0xc5, 0xe0), Word(0xe2, 0x3b, 0x80, 0xc7));
    hide SBox, Times;
    MixedColumn(0x78, 0xe2, 0xac, 0xce);
    MixedColumn(0x74, 0x1e, 0xd5, 0x42);
    MixedColumn(0x51, 0x00, 0xc5, 0xe0);
    MixedColumn(0xe2, 0x3b, 0x80, 0xc7);
  }

  lemma Round12()
    ensures Xor(MixColumns(ShiftRows(SubBytes(State(Word(0x5f, 0x9c, 0x6a, 0xbf), Word(0xba, 0xc6, 0x34, 0xaa), Word(0x50, 0x40, 0x9f, 0xa7), Word(0x66, 0x67, 0x76, 0x53))))),
                State(Word(0x25, 0x41, 0xfe, 0x71), Word(0x9b, 0xf5, 0x00, 0x25), Word(0x88, 0x13, 0xbb, 0xd5), Word(0x5a, 0x72, 0x1c, 0x0a)))
         == State(Word(0x51, 0x66, 0x04, 0x95), Word(0x43, 0x53, 0x95, 0x03), Word(0x14, 0xfb, 0x86, 0xe4), Word(0x01, 0x92, 0x25, 0x21))
  {
    assert ShiftRows(SubBytes(State(Word(0x5f, 0x9c, 0x6a, 0xbf), Word(0xba, 0xc6, 0x34, 0xaa), Word(0x50, 0x40, 0x9f, 0xa7), Word(0x66, 0x67, 0x76, 0x53))))
        == State(Word(0xcf, 0xb4, 0xdb, 0xed), Word(0xf4, 0x09, 0x38, 0x08), Word(0x53, 0x85, 0x02, 0xac), Word(0x33, 0xde, 0x18, 0x5c));
    hide SBox, Times;
    MixedColumn(0xcf, 0xb4, 0xdb, 0xed);
    MixedColumn(0xf4, 0x09, 0x38, 0x08);
    MixedColumn(0x53, 0x85, 0x02, 0xac);
    MixedColumn(0x33, 0xde, 0x18, 0x5c);
  }

  lemma Round13()
    ensures Xor(MixColumns(ShiftRows(SubBytes(State(Word(0x51, 0x66, 0x04, 0x95), Word(0x43, 0x53, 0x95, 0x03), Word(0x14, 0xfb, 0x86, 0xe4), Word(0x01, 0x92, 0x25, 0x21))))),
                State(Word(0x4e, 0x5a, 0x66, 0x99), Word(0xa9, 0xf2, 0x4f, 0xe0), Word(0x7e, 0x57, 0x2b, 0xaa), Word(0xcd, 0xf8, 0xcd, 0xea)))
         == State(Word(0x62, 0x7b, 0xce, 0xb9), Word(0x99, 0x9d, 0x5a, 0xaa), Word(0xc9, 0x45, 0xec, 0xf4), Word(0x23, 0xf5, 0x6d, 0xa5))
  {
    assert ShiftRows(SubBytes(State(Word(0x51, 0x66, 0x04, 0x95), Word(0x43, 0x53, 0x95, 0x03), Word(0x14, 0xfb, 0x86, 0xe4), Word(0x01, 0x92, 0x25, 0x21))))
        == State(Word(0xd1, 0xed, 0x44, 0xfd), Word(0x1a, 0x0f, 0x3f, 0x2a), Word(0xfa, 0x4f, 0xf2, 0x7b), Word(0x7c, 0x33, 0x2a, 0x69));
    hide SBox, Times;
    MixedColumn(0xd1, 0xed, 0x44, 0xfd);
    MixedColumn(0x1a, 0x0f, 0x3f, 0x2a);
    MixedColumn(0xfa, 0x4f, 0xf2, 0x7b);
    MixedColumn(0x7c, 0x33, 0x2a, 0x69);
  }

  /** The rounds with their keys. */
  lemma RoundsKnown(w: RoundKeys)
    requires RoundKey(w, 1) == State(Word(0x10, 0x11, 0x12, 0x13), Word(0x14, 0x15, 0x16, 0x17), Word(0x18, 0x19, 0x1a, 0x1b), Word(0x1c, 0x1d, 0x1e, 0x1f))
    requires RoundKey(w, 2) == State(Word(0xa5, 0x73, 0xc2, 0x9f), Word(0xa1, 0x76, 0xc4, 0x98), Word(0xa9, 0x7f, 0xce, 0x93), Word(0xa5, 0x72, 0xc0, 0x9c))
    requires RoundKey(w, 3) == State(Word(0x16, 0x51, 0xa8, 0xcd), Word(0x02, 0x44, 0xbe, 0xda), Word(0x1a, 0x5d, 0xa4, 0xc1), Word(0x06, 0x40, 0xba, 0xde))
    requires RoundKey(w, 4) == State(Word(0xae, 0x87, 0xdf, 0xf0), Word(0x0f, 0xf1, 0x1b, 0x68), Word(0xa6, 0x8e, 0xd5, 0xfb), Word(0x03, 0xfc, 0x15, 0x67))
    requires RoundKey(w, 5) == State(Word(0x6d, 0xe1, 0xf1, 0x48), Word(0x6f, 0xa5, 0x4f, 0x92), Word(0x75, 0xf8, 0xeb, 0x53), Word(0x73, 0xb8, 0x51, 0x8d))
    requires RoundKey(w, 6) == State(Word(0xc6, 0x56, 0x82, 0x7f), Word(0xc9, 0xa7, 0x99, 0x17), Word(0x6f, 0x29, 0x4c, 0xec), Word(0x6c, 0xd5, 0x59, 0x8b))
    requires RoundKey(w, 7) == State(Word(0x3d, 0xe2, 0x3a, 0x75), Word(0x52, 0x47, 0x75, 0xe7), Word(0x27, 0xbf, 0x9e, 0xb4), Word(0x54, 0x07, 0xcf, 0x39))
    requires RoundKey(w, 8) == State(Word(0x0b, 0xdc, 0x90, 0x5f), Word(0xc2, 0x7b, 0x09, 0x48), Word(0xad, 0x52, 0x45, 0xa4), Word(0xc1, 0x87, 0x1c, 0x2f))
    requires RoundKey(w, 9) == State(Word(0x45, 0xf5, 0xa6, 0x60), Word(0x17, 0xb2, 0xd3, 0x87), Word(0x30, 0x0d, 0x4d, 0x33), Word(0x64, 0x0a, 0x82, 0x0a))
    requires RoundKey(w, 10) == State(Word(0x7c, 0xcf, 0xf7, 0x1c), Word(0xbe, 0xb4, 0xfe, 0x54), Word(0x13, 0xe6, 0xbb, 0xf0), Word(0xd2, 0x61, 0xa7, 0xdf))
    requires RoundKey(w, 11) == State(Word(0xf0, 0x1a, 0xfa, 0xfe), Word(0xe7, 0xa8, 0x29, 0x79), Word(0xd7, 0xa5, 0x64, 0x4a), Word(0xb3, 0xaf, 0xe6, 0x40))
    requires RoundKey(w, 12) == State(Word(0x25, 0x41, 0xfe, 0x71), Word(0x9b, 0xf5, 0x00, 0x25), Word(0x88, 0x13, 0xbb, 0xd5), Word(0x5a, 0x72, 0x1c, 0x0a))
    requires RoundKey(w, 13) == State(Word(0x4e, 0x5a, 0x66, 0x99), Word(0xa9, 0xf2, 0x4f, 0xe0), Word(0x7e, 0x57, 0x2b, 0xaa), Word(0xcd, 0xf8, 0xcd, 0xea))
    ensures Rounds(w, 13, State(Word(0x00, 0x10, 0x20, 0x30), Word(0x40, 0x50, 0x60, 0x70), Word(0x80, 0x90, 0xa0, 0xb0), Word(0xc0, 0xd0, 0xe0, 0xf0)))
         == State(Word(0x62, 0x7b, 0xce, 0xb9), Word(0x99, 0x9d, 0x5a, 0xaa), Word(0xc9, 0x45, 0xec, 0xf4), Word(0x23, 0xf5, 0x6d, 0xa5))
  {
    hide SubBytes, ShiftRows, MixColumns, Xor, RoundKey;
    var s := State(Word(0x00, 0x10, 0x20, 0x30), Word(0x40, 0x50, 0x60, 0x70), Word(0x80, 0x90, 0xa0, 0xb0), Word(0xc0, 0xd0, 0xe0, 0xf0));
    RoundsStart(w, s);
    Round1();
    RoundsStep(w, 1, s);
    Round2();
    RoundsStep(w, 2, s);
    Round3();
    RoundsStep(w, 3, s);
    Round4();
    RoundsStep(w, 4, s);
    Round5();
    RoundsStep(w, 5, s);
    Round6();
    RoundsStep(w, 6, s);
    Round7();
    RoundsStep(w, 7, s);
    Round8();
    RoundsStep(w, 8, s);
    Round9();
    RoundsStep(w, 9, s);
    Round10();
    RoundsStep(w, 10, s);
    Round11();
    RoundsStep(w, 11, s);
    Round12();
    RoundsStep(w, 12, s);
    Round13();
    RoundsStep(w, 13, s);
  }

  lemma RoundsStart(w: RoundKeys, s: State)
    ensures Rounds(w, 0, s) == s
  {
  }

  lemma RoundsStep(w: RoundKeys, n: nat, s: State)
    requires 1 <= n <= ROUNDS
    ensures Rounds(w, n, s) == Xor(MixColumns(ShiftRows(SubBytes(Rounds(w, n - 1, s)))), RoundKey(w, n))
  {
    hide SubBytes, ShiftRows, MixColumns, Xor, RoundKey;
  }

  lemma FirstStep()
    ensures Xor(State(Word(0x00, 0x11, 0x22, 0x33), Word(0x44, 0x55, 0x66, 0x77), Word(0x88, 0x99, 0xaa, 0xbb), Word(0xcc, 0xdd, 0xee, 0xff)), State(Word(0x00, 0x01, 0x02, 0x03), Word(0x04, 0x05, 0x06, 0x07), Word(0x08, 0x09, 0x0a, 0x0b), Word(0x0c, 0x0d, 0x0e, 0x0f)))
         == State(Word(0x00, 0x10, 0x20, 0x30), Word(0x40, 0x50, 0x60, 0x70), Word(0x80, 0x90, 0xa0, 0xb0), Word(0xc0, 0xd0, 0xe0, 0xf0))
  {
  }

  lemma LastRound()
    ensures Xor(ShiftRows(SubBytes(State(Word(0x62, 0x7b, 0xce, 0xb9), Word(0x99, 0x9d, 0x5a, 0xaa), Word(0xc9, 0x45, 0xec, 0xf4), Word(0x23, 0xf5, 0x6d, 0xa5)))), State(Word(0x24, 0xfc, 0x79, 0xcc), Word(0xbf, 0x09, 0x79, 0xe9), Word(0x37, 0x1a, 0xc2, 0x3c), Word(0x6d, 0x68, 0xde, 0x36)))
         == State(Word(0x8e, 0xa2, 0xb7, 0xca), Word(0x51, 0x67, 0x45, 0xbf), Word(0xea, 0xfc, 0x49, 0x90), Word(0x4b, 0x49, 0x60, 0x89))
  {
  }

  lemma CipherKnown(key: Key)
    requires IsExampleKey(key)
    ensures Cipher(Expand(key), State(Word(0x00, 0x11, 0x22, 0x33), Word(0x44, 0x55, 0x66, 0x77), Word(0x88, 0x99, 0xaa, 0xbb), Word(0xcc, 0xdd, 0xee, 0xff)))
         == State(Word(0x8e, 0xa2, 0xb7, 0xca), Word(0x51, 0x67, 0x45, 0xbf), Word(0xea, 0xfc, 0x49, 0x90), Word(0x4b, 0x49, 0x60, 0x89))
  {
    hide SubBytes, ShiftRows, MixColumns, Xor, RoundKey, Rounds, Expand, ExpandedWord, IsExampleKey;
    KeyWords0(key);
    KeyWords8(key);
    KeyWords16(key);
    KeyWords24(key);
    KeyWords32(key);
    KeyWords40(key);
    KeyWords48(key);
    KeyWords56(key);
    RoundKeys0(key);
    RoundKeys5(key);
    RoundKeys10(key);
    FirstStep();
    RoundsKnown(Expand(key));
    LastRound();
  }

  /** The block 00 11 .. ff under the key 00 01 .. 1f is 8ea2b7ca 516745bf eafc4990 4b496089, and back. */
  lemma ExampleBlock(key: Key, plain: Block, secret: Block)
    requires IsExampleKey(key)
    requires plain == [0x00, 0x11, 0x22, 0x33, 0x44, 0x55, 0x66, 0x77, 0x88, 0x99, 0xaa, 0xbb, 0xcc, 0xdd, 0xee, 0xff]
    requires secret == [0x8e, 0xa2, 0xb7, 0xca, 0x51, 0x67, 0x45, 0xbf, 0xea, 0xfc, 0x49, 0x90, 0x4b, 0x49, 0x60, 0x89]
    ensures Encrypt(Expand(key), plain) == secret && Decrypt(Expand(key), secret) == plain
  {
    hide Cipher, InvCipher, Expand, IsExampleKey, Encrypt, Decrypt;
    CipherKnown(key);
    ExampleStates(plain, Expand(key));
    DecryptEncrypt(Expand(key), plain);
  }

  lemma ExampleStates(b: Block, w: RoundKeys)
    requires b == [0x00, 0x11, 0x22, 0x33, 0x44, 0x55, 0x66, 0x77, 0x88, 0x99, 0xaa, 0xbb, 0xcc, 0xdd, 0xee, 0xff]
    requires Cipher(w, State(Word(0x00, 0x11, 0x22, 0x33), Word(0x44, 0x55, 0x66, 0x77), Word(0x88, 0x99, 0xaa, 0xbb), Word(0xcc, 0xdd, 0xee, 0xff)))
          == State(Word(0x8e, 0xa2, 0xb7, 0xca), Word(0x51, 0x67, 0x45, 0xbf), Word(0xea, 0xfc, 0x49, 0x90), Word(0x4b, 0x49, 0x60, 0x89))
    ensures Encrypt(w, b) == [0x8e, 0xa2, 0xb7, 0xca, 0x51, 0x67, 0x45, 0xbf, 0xea, 0xfc, 0x49, 0x90, 0x4b, 0x49, 0x60, 0x89]
  {
    hide Cipher;
    assert StateAt(b, 0) == State(Word(0x00, 0x11, 0x22, 0x33), Word(0x44, 0x55, 0x66, 0x77), Word(0x88, 0x99, 0xaa, 0xbb), Word(0xcc, 0xdd, 0xee, 0xff));
  }
}
