// Two digests of RFC 1321 section A.5, step by step: they fix the constants, the order of
// words and bytes and the initial words all at once.

module Md5Vectors {
  import opened Md5Block
  import opened Md5Stream
  import opened Md5Words
  import opened Octets

  // One step on known words: it sets n.
  lemma StepSets(v: Words, block: seq<Octet>, i: nat, w: Words, x: bv32, n: bv32)
    requires |block| == BLOCK && i < 64 && RfcSteps(v, block, i) == w && WordAt(block, WordIndex(i)) == x
    requires Operation(i / 16, w.a, w.b, w.c, w.d, x, ShiftOf(i), T(i)) == n
    ensures RfcSteps(v, block, i + 1) == Words(w.d, n, w.b, w.c)
  {
    hide Operation, WordAt, T, WordIndex, ShiftOf;
  }

  lemma OneBlockDigest(message: seq<Octet>, block: seq<Octet>, v: Words)
    requires |block| == BLOCK && message + Padding(|message|) == block && RfcSteps(Initial(), block, 64) == v
    ensures var w := Initial();
            Digest(message) == DigestOf(Words(Add32(w.a, v.a), Add32(w.b, v.b), Add32(w.c, v.c), Add32(w.d, v.d)))
  {
    hide RfcSteps, Padding, DigestOf, Initial, Add32;
    assert block[..|block| - BLOCK] == [] && block[|block| - BLOCK..] == block;
    assert RfcBlocks(Initial(), []) == Initial();
  }

  // ---- The empty message ----

  // Its one block, word by word
  ghost predicate IsEmptyBlock(block: seq<Octet>) {
    && |block| == BLOCK
    && forall k :: 0 <= k < 16 ==> WordAt(block, k) == EmptyWord(k)
  }

  function EmptyWord(k: nat): bv32 {
    if k == 0 then 0x00000080 else 0
  }

  lemma EmptyTo8(block: seq<Octet>)
    requires IsEmptyBlock(block)
    ensures RfcSteps(Initial(), block, 8) == Words(0x32033344, 0x9bc13ce9, 0xf5b158db, 0x2f35d494)
  {
    StepsFromNone(block);
    hide RfcSteps, WordAt;
    var v := Initial();
    StepSets(v, block, 0, Words(0x67452301, 0xefcdab89, 0x98badcfe, 0x10325476), 0x00000080, 0xa5202774);
    StepSets(v, block, 1, Words(0x10325476, 0xa5202774, 0xefcdab89, 0x98badcfe), 0x00000000, 0xf59592dd);
    StepSets(v, block, 2, Words(0x98badcfe, 0xf59592dd, 0xa5202774, 0xefcdab89), 0x00000000, 0xe7f06b23);
    StepSets(v, block, 3, Words(0xefcdab89, 0xe7f06b23, 0xf59592dd, 0xa5202774), 0x00000000, 0x1b163203);
    StepSets(v, block, 4, Words(0xa5202774, 0x1b163203, 0xe7f06b23, 0xf59592dd), 0x00000000, 0x32033344);
    StepSets(v, block, 5, Words(0xf59592dd, 0x32033344, 0x1b163203, 0xe7f06b23), 0x00000000, 0x2f35d494);
    StepSets(v, block, 6, Words(0xe7f06b23, 0x2f35d494, 0x32033344, 0x1b163203), 0x00000000, 0xf5b158db);
    StepSets(v, block, 7, Words(0x1b163203, 0xf5b158db, 0x2f35d494, 0x32033344), 0x00000000, 0x9bc13ce9);
  }

  lemma EmptyTo16(block: seq<Octet>)
    requires IsEmptyBlock(block)
    ensures RfcSteps(Initial(), block, 16) == Words(0xf56c7cf1, 0xd6819c6a, 0x5aa53f75, 0x374943a7)
  {
    hide RfcSteps, WordAt;
    EmptyTo8(block);
    var v := Initial();
    StepSets(v, block, 8, Words(0x32033344, 0x9bc13ce9, 0xf5b158db, 0x2f35d494), 0x00000000, 0x3893b991);
    StepSets(v, block, 9, Words(0x2f35d494, 0x3893b991, 0x9bc13ce9, 0xf5b158db), 0x00000000, 0xfce4a312);
    StepSets(v, block, 10, Words(0xf5b158db, 0xfce4a312, 0x3893b991, 0x9bc13ce9), 0x00000000, 0xe1ef0576);
    StepSets(v, block, 11, Words(0x9bc13ce9, 0xe1ef0576, 0xfce4a312, 0x3893b991), 0x00000000, 0x70768a29);
    StepSets(v, block, 12, Words(0x3893b991, 0x70768a29, 0xe1ef0576, 0xfce4a312), 0x00000000, 0xf56c7cf1);
    StepSets(v, block, 13, Words(0xfce4a312, 0xf56c7cf1, 0x70768a29, 0xe1ef0576), 0x00000000, 0x374943a7);
    StepSets(v, block, 14, Words(0xe1ef0576, 0x374943a7, 0xf56c7cf1, 0x70768a29), 0x00000000, 0x5aa53f75);
    StepSets(v, block, 15, Words(0x70768a29, 0x5aa53f75, 0x374943a7, 0xf56c7cf1), 0x00000000, 0xd6819c6a);
  }

  lemma EmptyTo24(block: seq<Octet>)
    requires IsEmptyBlock(block)
    ensures RfcSteps(Initial(), block, 24) == Words(0x3d1e3e6c, 0xe422531a, 0xeb41643e, 0x68b7b3e3)
  {
    hide RfcSteps, WordAt;
    EmptyTo16(block);
    var v := Initial();
    StepSets(v, block, 16, Words(0xf56c7cf1, 0xd6819c6a, 0x5aa53f75, 0x374943a7), 0x00000000, 0x1c7d7513);
    StepSets(v, block, 17, Words(0x374943a7, 0x1c7d7513, 0xd6819c6a, 0x5aa53f75), 0x00000000, 0x7bd57a3a);
    StepSets(v, block, 18, Words(0x5aa53f75, 0x7bd57a3a, 0x1c7d7513, 0xd6819c6a), 0x00000000, 0xc095f13a);
    StepSets(v, block, 19, Words(0xd6819c6a, 0xc095f13a, 0x7bd57a3a, 0x1c7d7513), 0x00000080, 0xbd782e17);
    StepSets(v, block, 20, Words(0x1c7d7513, 0xbd782e17, 0xc095f13a, 0x7bd57a3a), 0x00000000, 0x3d1e3e6c);
    StepSets(v, block, 21, Words(0x7bd57a3a, 0x3d1e3e6c, 0xbd782e17, 0xc095f13a), 0x00000000, 0x68b7b3e3);
    StepSets(v, block, 22, Words(0xc095f13a, 0x68b7b3e3, 0x3d1e3e6c, 0xbd782e17), 0x00000000, 0xeb41643e);
    StepSets(v, block, 23, Words(0xbd782e17, 0xeb41643e, 0x68b7b3e3, 0x3d1e3e6c), 0x00000000, 0xe422531a);
  }

  lemma EmptyTo32(block: seq<Octet>)
    requires IsEmptyBlock(block)
    ensures RfcSteps(Initial(), block, 32) == Words(0x13707036, 0xa2205f1f, 0x1c31c384, 0xae7813db)
  {
    hide RfcSteps, WordAt;
    EmptyTo24(block);
    var v := Initial();
    StepSets(v, block, 24, Words(0x3d1e3e6c, 0xe422531a, 0xeb41643e, 0x68b7b3e3), 0x00000000, 0x306ec122);
    StepSets(v, block, 25, Words(0x68b7b3e3, 0x306ec122, 0xe422531a, 0xeb41643e), 0x00000000, 0xd28c77c2);
    StepSets(v, block, 26, Words(0xeb41643e, 0xd28c77c2, 0x306ec122, 0xe422531a), 0x00000000, 0xa3c663da);
    StepSets(v, block, 27, Words(0xe422531a, 0xa3c663da, 0xd28c77c2, 0x306ec122), 0x00000000, 0xa0572807);
    StepSets(v, block, 28, Words(0x306ec122, 0xa0572807, 0xa3c663da, 0xd28c77c2), 0x00000000, 0x13707036);
    StepSets(v, block, 29, Words(0xd28c77c2, 0x13707036, 0xa0572807, 0xa3c663da), 0x00000000, 0xae7813db);
    StepSets(v, block, 30, Words(0xa3c663da, 0xae7813db, 0x13707036, 0xa0572807), 0x00000000, 0x1c31c384);
    StepSets(v, block, 31, Words(0xa0572807, 0x1c31c384, 0xae7813db, 0x13707036), 0x00000000, 0xa2205f1f);
  }

  lemma EmptyTo40(block: seq<Octet>)
    requires IsEmptyBlock(block)
    ensures RfcSteps(Initial(), block, 40) == Words(0x5f7a9b2e, 0xc5dc8c15, 0x91ca4cb7, 0xabc34e16)
  {
    hide RfcSteps, WordAt;
    EmptyTo32(block);
    var v := Initial();
    StepSets(v, block, 32, Words(0x13707036, 0xa2205f1f, 0x1c31c384, 0xae7813db), 0x00000000, 0xdf63eaa1);
    StepSets(v, block, 33, Words(0xae7813db, 0xdf63eaa1, 0xa2205f1f, 0x1c31c384), 0x00000000, 0xc3689f5b);
    StepSets(v, block, 34, Words(0x1c31c384, 0xc3689f5b, 0xdf63eaa1, 0xa2205f1f), 0x00000000, 0x12f3e755);
    StepSets(v, block, 35, Words(0xa2205f1f, 0x12f3e755, 0xc3689f5b, 0xdf63eaa1), 0x00000000, 0x004b6669);
    StepSets(v, block, 36, Words(0xdf63eaa1, 0x004b6669, 0x12f3e755, 0xc3689f5b), 0x00000000, 0x5f7a9b2e);
    StepSets(v, block, 37, Words(0xc3689f5b, 0x5f7a9b2e, 0x004b6669, 0x12f3e755), 0x00000000, 0xabc34e16);
    StepSets(v, block, 38, Words(0x12f3e755, 0xabc34e16, 0x5f7a9b2e, 0x004b6669), 0x00000000, 0x91ca4cb7);
    StepSets(v, block, 39, Words(0x004b6669, 0x91ca4cb7, 0xabc34e16, 0x5f7a9b2e), 0x00000000, 0xc5dc8c15);
  }

  lemma EmptyTo48(block: seq<Octet>)
    requires IsEmptyBlock(block)
    ensures RfcSteps(Initial(), block, 48) == Words(0x3f55edfd, 0xca7d2dbd, 0x68d84ea2, 0x22a31f54)
  {
    hide RfcSteps, WordAt;
    EmptyTo40(block);
    var v := Initial();
    StepSets(v, block, 40, Words(0x5f7a9b2e, 0xc5dc8c15, 0x91ca4cb7, 0xabc34e16), 0x00000000, 0x4497169d);
    StepSets(v, block, 41, Words(0xabc34e16, 0x4497169d, 0xc5dc8c15, 0x91ca4cb7), 0x00000080, 0x76fd93d4);
    StepSets(v, block, 42, Words(0x91ca4cb7, 0x76fd93d4, 0x4497169d, 0xc5dc8c15), 0x00000000, 0xfd95f243);
    StepSets(v, block, 43, Words(0xc5dc8c15, 0xfd95f243, 0x76fd93d4, 0x4497169d), 0x00000000, 0x0fe32453);
    StepSets(v, block, 44, Words(0x4497169d, 0x0fe32453, 0xfd95f243, 0x76fd93d4), 0x00000000, 0x3f55edfd);
    StepSets(v, block, 45, Words(0x76fd93d4, 0x3f55edfd, 0x0fe32453, 0xfd95f243), 0x00000000, 0x22a31f54);
    StepSets(v, block, 46, Words(0xfd95f243, 0x22a31f54, 0x3f55edfd, 0x0fe32453), 0x00000000, 0x68d84ea2);
    StepSets(v, block, 47, Words(0x0fe32453, 0x68d84ea2, 0x22a31f54, 0x3f55edfd), 0x00000000, 0xca7d2dbd);
  }

  lemma EmptyTo56(block: seq<Octet>)
    requires IsEmptyBlock(block)
    ensures RfcSteps(Initial(), block, 56) == Words(0x5625a114, 0x1e77fa61, 0x392ad0d0, 0x3450f42b)
  {
    hide RfcSteps, WordAt;
    EmptyTo48(block);
    var v := Initial();
    StepSets(v, block, 48, Words(0x3f55edfd, 0xca7d2dbd, 0x68d84ea2, 0x22a31f54), 0x00000080, 0x93aa2577);
    StepSets(v, block, 49, Words(0x22a31f54, 0x93aa2577, 0xca7d2dbd, 0x68d84ea2), 0x00000000, 0x1688dc85);
    StepSets(v, block, 50, Words(0x68d84ea2, 0x1688dc85, 0x93aa2577, 0xca7d2dbd), 0x00000000, 0xcd85b8cb);
    StepSets(v, block, 51, Words(0xca7d2dbd, 0xcd85b8cb, 0x1688dc85, 0x93aa2577), 0x00000000, 0x561e0689);
    StepSets(v, block, 52, Words(0x93aa2577, 0x561e0689, 0xcd85b8cb, 0x1688dc85), 0x00000000, 0x5625a114);
    StepSets(v, block, 53, Words(0x1688dc85, 0x5625a114, 0x561e0689, 0xcd85b8cb), 0x00000000, 0x3450f42b);
    StepSets(v, block, 54, Words(0xcd85b8cb, 0x3450f42b, 0x5625a114, 0x561e0689), 0x00000000, 0x392ad0d0);
    StepSets(v, block, 55, Words(0x561e0689, 0x392ad0d0, 0x3450f42b, 0x5625a114), 0x00000000, 0x1e77fa61);
  }

  lemma EmptyTo64(block: seq<Octet>)
    requires IsEmptyBlock(block)
    ensures RfcSteps(Initial(), block, 64) == Words(0x7246fad3, 0x14e45506, 0xff4ea3eb, 0x6e10a476)
  {
    hide RfcSteps, WordAt;
    EmptyTo56(block);
    var v := Initial();
    StepSets(v, block, 56, Words(0x5625a114, 0x1e77fa61, 0x392ad0d0, 0x3450f42b), 0x00000000, 0x474a9c8c);
    StepSets(v, block, 57, Words(0x3450f42b, 0x474a9c8c, 0x1e77fa61, 0x392ad0d0), 0x00000000, 0xdfce00bc);
    StepSets(v, block, 58, Words(0x392ad0d0, 0xdfce00bc, 0x474a9c8c, 0x1e77fa61), 0x00000000, 0x36594b14);
    StepSets(v, block, 59, Words(0x1e77fa61, 0x36594b14, 0xdfce00bc, 0x474a9c8c), 0x00000000, 0x30130182);
    StepSets(v, block, 60, Words(0x474a9c8c, 0x30130182, 0x36594b14, 0xdfce00bc), 0x00000000, 0x7246fad3);
    StepSets(v, block, 61, Words(0xdfce00bc, 0x7246fad3, 0x30130182, 0x36594b14), 0x00000000, 0x6e10a476);
    StepSets(v, block, 62, Words(0x36594b14, 0x6e10a476, 0x7246fad3, 0x30130182), 0x00000000, 0xff4ea3eb);
    StepSets(v, block, 63, Words(0x30130182, 0xff4ea3eb, 0x6e10a476, 0x7246fad3), 0x00000000, 0x14e45506);
  }

  lemma EmptyBlock() returns (block: seq<Octet>)
    ensures IsEmptyBlock(block) && [] + Padding(0) == block
  {
    block := [] + Padding(0);
    ZeroBytes(8);
    assert Padding(0) == [0x80] + Zeros(55) + LittleEndian(0, 8);
    forall i | 0 <= i < 64 ensures block[i] == if i == 0 then 0x80 else 0 {
      if i >= 56 { assert block[i] == LittleEndian(0, 8)[i - 56]; }
    }
    hide Padding, LittleEndian, Zeros;
    WordsOfBytes(block, 0x80, 0, 0, 0, 0);
  }

  lemma EmptyDigest()
    ensures Digest([]) == [
      0xd4, 0x1d, 0x8c, 0xd9, 0x8f, 0x00, 0xb2, 0x04,
      0xe9, 0x80, 0x09, 0x98, 0xec, 0xf8, 0x42, 0x7e]
  {
    hide RfcSteps, Padding;
    var block := EmptyBlock();
    EmptyTo64(block);
    OneBlockDigest([], block, Words(0x7246fad3, 0x14e45506, 0xff4ea3eb, 0x6e10a476));
  }

  // ---- The message abc ----

  // Its one block, word by word
  ghost predicate IsAbcBlock(block: seq<Octet>) {
    && |block| == BLOCK
    && forall k :: 0 <= k < 16 ==> WordAt(block, k) == AbcWord(k)
  }

  function AbcWord(k: nat): bv32 {
    if k == 0 then 0x80636261 else if k == 14 then 0x00000018 else 0
  }

  lemma AbcTo8(block: seq<Octet>)
    requires IsAbcBlock(block)
    ensures RfcSteps(Initial(), block, 8) == Words(0xc73741ef, 0x928d99f6, 0x207dc67b, 0x8bac3051)
  {
    StepsFromNone(block);
    hide RfcSteps, WordAt;
    var v := Initial();
    StepSets(v, block, 0, Words(0x67452301, 0xefcdab89, 0x98badcfe, 0x10325476), 0x80636261, 0xd6d117b4);
    StepSets(v, block, 1, Words(0x10325476, 0xd6d117b4, 0xefcdab89, 0x98badcfe), 0x00000000, 0x344a8432);
    StepSets(v, block, 2, Words(0x98badcfe, 0x344a8432, 0xd6d117b4, 0xefcdab89), 0x00000000, 0x2f6fbd72);
    StepSets(v, block, 3, Words(0xefcdab89, 0x2f6fbd72, 0x344a8432, 0xd6d117b4), 0x00000000, 0x7ad956f2);
    StepSets(v, block, 4, Words(0xd6d117b4, 0x7ad956f2, 0x2f6fbd72, 0x344a8432), 0x00000000, 0xc73741ef);
    StepSets(v, block, 5, Words(0x344a8432, 0xc73741ef, 0x7ad956f2, 0x2f6fbd72), 0x00000000, 0x8bac3051);
    StepSets(v, block, 6, Words(0x2f6fbd72, 0x8bac3051, 0xc73741ef, 0x7ad956f2), 0x00000000, 0x207dc67b);
    StepSets(v, block, 7, Words(0x7ad956f2, 0x207dc67b, 0x8bac3051, 0xc73741ef), 0x00000000, 0x928d99f6);
  }

  lemma AbcTo16(block: seq<Octet>)
    requires IsAbcBlock(block)
    ensures RfcSteps(Initial(), block, 16) == Words(0xdda9b9a6, 0x72aff2e0, 0xe396856b, 0xa1051895)
  {
    hide RfcSteps, WordAt;
    AbcTo8(block);
    var v := Initial();
    StepSets(v, block, 8, Words(0xc73741ef, 0x928d99f6, 0x207dc67b, 0x8bac3051), 0x00000000, 0x854b3712);
    StepSets(v, block, 9, Words(0x8bac3051, 0x854b3712, 0x928d99f6, 0x207dc67b), 0x00000000, 0x74e2f284);
    StepSets(v, block, 10, Words(0x207dc67b, 0x74e2f284, 0x854b3712, 0x928d99f6), 0x00000000, 0x3020401c);
    StepSets(v, block, 11, Words(0x928d99f6, 0x3020401c, 0x74e2f284, 0x854b3712), 0x00000000, 0x5ed49596);
    StepSets(v, block, 12, Words(0x854b3712, 0x5ed49596, 0x3020401c, 0x74e2f284), 0x00000000, 0xdda9b9a6);
    StepSets(v, block, 13, Words(0x74e2f284, 0xdda9b9a6, 0x5ed49596, 0x3020401c), 0x00000000, 0xa1051895);
    StepSets(v, block, 14, Words(0x3020401c, 0xa1051895, 0xdda9b9a6, 0x5ed49596), 0x00000018, 0xe396856b);
    StepSets(v, block, 15, Words(0x5ed49596, 0xe396856b, 0xa1051895, 0xdda9b9a6), 0x00000000, 0x72aff2e0);
  }

  lemma AbcTo24(block: seq<Octet>)
    requires IsAbcBlock(block)
    ensures RfcSteps(Initial(), block, 24) == Words(0x59a8ffda, 0x47092c07, 0xabfc7920, 0x6d002f1e)
  {
    hide RfcSteps, WordAt;
    AbcTo16(block);
    var v := Initial();
    StepSets(v, block, 16, Words(0xdda9b9a6, 0x72aff2e0, 0xe396856b, 0xa1051895), 0x00000000, 0x3e9e9126);
    StepSets(v, block, 17, Words(0xa1051895, 0x3e9e9126, 0x72aff2e0, 0xe396856b), 0x00000000, 0x4a1d804e);
    StepSets(v, block, 18, Words(0xe396856b, 0x4a1d804e, 0x3e9e9126, 0x72aff2e0), 0x00000000, 0xe25e1652);
    StepSets(v, block, 19, Words(0x72aff2e0, 0xe25e1652, 0x4a1d804e, 0x3e9e9126), 0x80636261, 0xb5b204e4);
    StepSets(v, block, 20, Words(0x3e9e9126, 0xb5b204e4, 0xe25e1652, 0x4a1d804e), 0x00000000, 0x59a8ffda);
    StepSets(v, block, 21, Words(0x4a1d804e, 0x59a8ffda, 0xb5b204e4, 0xe25e1652), 0x00000000, 0x6d002f1e);
    StepSets(v, block, 22, Words(0xe25e1652, 0x6d002f1e, 0x59a8ffda, 0xb5b204e4), 0x00000000, 0xabfc7920);
    StepSets(v, block, 23, Words(0xb5b204e4, 0xabfc7920, 0x6d002f1e, 0x59a8ffda), 0x00000000, 0x47092c07);
  }

  lemma AbcTo32(block: seq<Octet>)
    requires IsAbcBlock(block)
    ensures RfcSteps(Initial(), block, 32) == Words(0x790a77fb, 0x726342d3, 0xa62884aa, 0x9f47e4f8)
  {
    hide RfcSteps, WordAt;
    AbcTo24(block);
    var v := Initial();
    StepSets(v, block, 24, Words(0x59a8ffda, 0x47092c07, 0xabfc7920, 0x6d002f1e), 0x00000000, 0xb7f268cf);
    StepSets(v, block, 25, Words(0x6d002f1e, 0xb7f268cf, 0x47092c07, 0xabfc7920), 0x00000018, 0x09388eff);
    StepSets(v, block, 26, Words(0xabfc7920, 0x09388eff, 0xb7f268cf, 0x47092c07), 0x00000000, 0xfe1623b1);
    StepSets(v, block, 27, Words(0x47092c07, 0xfe1623b1, 0x09388eff, 0xb7f268cf), 0x00000000, 0x786acb8f);
    StepSets(v, block, 28, Words(0xb7f268cf, 0x786acb8f, 0xfe1623b1, 0x09388eff), 0x00000000, 0x790a77fb);
    StepSets(v, block, 29, Words(0x09388eff, 0x790a77fb, 0x786acb8f, 0xfe1623b1), 0x00000000, 0x9f47e4f8);
    StepSets(v, block, 30, Words(0xfe1623b1, 0x9f47e4f8, 0x790a77fb, 0x786acb8f), 0x00000000, 0xa62884aa);
    StepSets(v, block, 31, Words(0x786acb8f, 0xa62884aa, 0x9f47e4f8, 0x790a77fb), 0x00000000, 0x726342d3);
  }

  lemma AbcTo40(block: seq<Octet>)
    requires IsAbcBlock(block)
    ensures RfcSteps(Initial(), block, 40) == Words(0x21b117b9, 0x5a2f5ea5, 0x3575227e, 0x6e7429d5)
  {
    hide RfcSteps, WordAt;
    AbcTo32(block);
    var v := Initial();
    StepSets(v, block, 32, Words(0x790a77fb, 0x726342d3, 0xa62884aa, 0x9f47e4f8), 0x00000000, 0xb3707ebf);
    StepSets(v, block, 33, Words(0x9f47e4f8, 0xb3707ebf, 0x726342d3, 0xa62884aa), 0x00000000, 0x60127b2e);
    StepSets(v, block, 34, Words(0xa62884aa, 0x60127b2e, 0xb3707ebf, 0x726342d3), 0x00000000, 0x8d212ff5);
    StepSets(v, block, 35, Words(0x726342d3, 0x8d212ff5, 0x60127b2e, 0xb3707ebf), 0x00000018, 0x3b0875c7);
    StepSets(v, block, 36, Words(0xb3707ebf, 0x3b0875c7, 0x8d212ff5, 0x60127b2e), 0x00000000, 0x21b117b9);
    StepSets(v, block, 37, Words(0x60127b2e, 0x21b117b9, 0x3b0875c7, 0x8d212ff5), 0x00000000, 0x6e7429d5);
    StepSets(v, block, 38, Words(0x8d212ff5, 0x6e7429d5, 0x21b117b9, 0x3b0875c7), 0x00000000, 0x3575227e);
    StepSets(v, block, 39, Words(0x3b0875c7, 0x3575227e, 0x6e7429d5, 0x21b117b9), 0x00000000, 0x5a2f5ea5);
  }

  lemma AbcTo48(block: seq<Octet>)
    requires IsAbcBlock(block)
    ensures RfcSteps(Initial(), block, 48) == Words(0x7f2e507b, 0x7beb9700, 0x8fae6399, 0x99d9679d)
  {
    hide RfcSteps, WordAt;
    AbcTo40(block);
    var v := Initial();
    StepSets(v, block, 40, Words(0x21b117b9, 0x5a2f5ea5, 0x3575227e, 0x6e7429d5), 0x00000000, 0x11de1779);
    StepSets(v, block, 41, Words(0x6e7429d5, 0x11de1779, 0x5a2f5ea5, 0x3575227e), 0x80636261, 0xfadcaa38);
    StepSets(v, block, 42, Words(0x3575227e, 0xfadcaa38, 0x11de1779, 0x5a2f5ea5), 0x00000000, 0x31c465ca);
    StepSets(v, block, 43, Words(0x5a2f5ea5, 0x31c465ca, 0xfadcaa38, 0x11de1779), 0x00000000, 0x4c6124f4);
    StepSets(v, block, 44, Words(0x11de1779, 0x4c6124f4, 0x31c465ca, 0xfadcaa38), 0x00000000, 0x7f2e507b);
    StepSets(v, block, 45, Words(0xfadcaa38, 0x7f2e507b, 0x4c6124f4, 0x31c465ca), 0x00000000, 0x99d9679d);
    StepSets(v, block, 46, Words(0x31c465ca, 0x99d9679d, 0x7f2e507b, 0x4c6124f4), 0x00000000, 0x8fae6399);
    StepSets(v, block, 47, Words(0x4c6124f4, 0x8fae6399, 0x99d9679d, 0x7f2e507b), 0x00000000, 0x7beb9700);
  }

  lemma AbcTo56(block: seq<Octet>)
    requires IsAbcBlock(block)
    ensures RfcSteps(Initial(), block, 56) == Words(0x06cc5e8a, 0x3bfa2c27, 0x7d632dd0, 0x5b0d97aa)
  {
    hide RfcSteps, WordAt;
    AbcTo48(block);
    var v := Initial();
    StepSets(v, block, 48, Words(0x7f2e507b, 0x7beb9700, 0x8fae6399, 0x99d9679d), 0x80636261, 0x7b201df8);
    StepSets(v, block, 49, Words(0x99d9679d, 0x7b201df8, 0x7beb9700, 0x8fae6399), 0x00000000, 0xf4e8e96e);
    StepSets(v, block, 50, Words(0x8fae6399, 0xf4e8e96e, 0x7b201df8, 0x7beb9700), 0x00000018, 0xb298cefd);
    StepSets(v, block, 51, Words(0x7beb9700, 0xb298cefd, 0xf4e8e96e, 0x7b201df8), 0x00000000, 0x8bf025c4);
    StepSets(v, block, 52, Words(0x7b201df8, 0x8bf025c4, 0xb298cefd, 0xf4e8e96e), 0x00000000, 0x06cc5e8a);
    StepSets(v, block, 53, Words(0xf4e8e96e, 0x06cc5e8a, 0x8bf025c4, 0xb298cefd), 0x00000000, 0x5b0d97aa);
    StepSets(v, block, 54, Words(0xb298cefd, 0x5b0d97aa, 0x06cc5e8a, 0x8bf025c4), 0x00000000, 0x7d632dd0);
    StepSets(v, block, 55, Words(0x8bf025c4, 0x7d632dd0, 0x5b0d97aa, 0x06cc5e8a), 0x00000000, 0x3bfa2c27);
  }

  lemma AbcTo64(block: seq<Octet>)
    requires IsAbcBlock(block)
    ensures RfcSteps(Initial(), block, 64) == Words(0x310ade8f, 0xc08226b3, 0xe484b9d8, 0x624d8cb2)
  {
    hide RfcSteps, WordAt;
    AbcTo56(block);
    var v := Initial();
    StepSets(v, block, 56, Words(0x06cc5e8a, 0x3bfa2c27, 0x7d632dd0, 0x5b0d97aa), 0x00000000, 0x7f81cc35);
    StepSets(v, block, 57, Words(0x5b0d97aa, 0x7f81cc35, 0x3bfa2c27, 0x7d632dd0), 0x00000000, 0x094454ab);
    StepSets(v, block, 58, Words(0x7d632dd0, 0x094454ab, 0x7f81cc35, 0x3bfa2c27), 0x00000000, 0x4f9dbe3f);
    StepSets(v, block, 59, Words(0x3bfa2c27, 0x4f9dbe3f, 0x094454ab, 0x7f81cc35), 0x00000000, 0x7327d604);
    StepSets(v, block, 60, Words(0x7f81cc35, 0x7327d604, 0x4f9dbe3f, 0x094454ab), 0x00000000, 0x310ade8f);
    StepSets(v, block, 61, Words(0x094454ab, 0x310ade8f, 0x7327d604, 0x4f9dbe3f), 0x00000000, 0x624d8cb2);
    StepSets(v, block, 62, Words(0x4f9dbe3f, 0x624d8cb2, 0x310ade8f, 0x7327d604), 0x00000000, 0xe484b9d8);
    StepSets(v, block, 63, Words(0x7327d604, 0xe484b9d8, 0x624d8cb2, 0x310ade8f), 0x00000000, 0xc08226b3);
  }

  lemma AbcBlock() returns (block: seq<Octet>)
    ensures IsAbcBlock(block) && [0x61, 0x62, 0x63] + Padding(3) == block
  {
    block := [0x61, 0x62, 0x63] + Padding(3);
    AbcBytes(block);
    hide Padding, WordAt;
    WordsOfBytes(block, 0x61, 0x62, 0x63, 0x80, 0x18);
    AbcFirst();
  }

  lemma AbcFirst()
    ensures (0x61 as Octet as bv32) | ((0x62 as Octet as bv32) << 8) | ((0x63 as Octet as bv32) << 16) |
              ((0x80 as Octet as bv32) << 24) == 0x80636261
  {
  }

  lemma AbcBytes(block: seq<Octet>)
    requires block == [0x61, 0x62, 0x63] + Padding(3)
    ensures |block| == BLOCK && block[0] == 0x61 && block[1] == 0x62 && block[2] == 0x63 && block[3] == 0x80
    ensures forall i :: 4 <= i < 64 ==> block[i] == if i == 56 then 0x18 else 0
  {
    hide Padding, LittleEndian;
    AbcPadding();
    ZeroBytes(7);
    var length := LittleEndian(0, 7);
    assert block == ([0x61, 0x62, 0x63, 0x80] + Zeros(52)) + ([0x18] + length);
    forall i | 4 <= i < 64 ensures block[i] == if i == 56 then 0x18 else 0 {
      if i > 56 { assert block[i] == length[i - 57]; }
    }
  }

  lemma AbcPadding()
    ensures Padding(3) == [0x80] + Zeros(52) + ([0x18] + LittleEndian(0, 7))
  {
    LowBytes();
    assert LittleEndian(24, 8) == [0x18] + LittleEndian(0, 7);
  }

  lemma AbcDigest()
    ensures Digest([0x61, 0x62, 0x63]) == [
      0x90, 0x01, 0x50, 0x98, 0x3c, 0xd2, 0x4f, 0xb0,
      0xd6, 0x96, 0x3f, 0x7d, 0x28, 0xe1, 0x7f, 0x72]
  {
    hide RfcSteps, Padding;
    var block := AbcBlock();
    AbcTo64(block);
    OneBlockDigest([0x61, 0x62, 0x63], block, Words(0x310ade8f, 0xc08226b3, 0xe484b9d8, 0x624d8cb2));
  }

  lemma StepsFromNone(block: seq<Octet>)
    requires |block| == BLOCK
    ensures RfcSteps(Initial(), block, 0) == Words(0x67452301, 0xefcdab89, 0x98badcfe, 0x10325476)
  {
  }

  lemma LowBytes()
    ensures LowOctet(0) == 0 && LowOctet(24) == 0x18
  {
  }

  lemma {:induction false} ZeroBytes(k: nat)
    ensures forall i :: 0 <= i < k ==> LittleEndian(0, k)[i] == 0
  {
    if k == 0 {
    } else {
      LowBytes();
      ZeroBytes(k - 1);
    }
  }

  // A block whose bytes are zeros but for the first four and the 57th
  lemma WordsOfBytes(block: seq<Octet>, a: Octet, b: Octet, c: Octet, d: Octet, length: Octet)
    requires |block| == BLOCK && block[0] == a && block[1] == b && block[2] == c && block[3] == d
    requires forall i :: 4 <= i < 64 ==> block[i] == if i == 56 then length else 0
    ensures WordAt(block, 0) == (a as bv32) | ((b as bv32) << 8) | ((c as bv32) << 16) | ((d as bv32) << 24)
    ensures WordAt(block, 14) == length as bv32
    ensures forall k :: 0 < k < 16 && k != 14 ==> WordAt(block, k) == 0
  {
  }
}
