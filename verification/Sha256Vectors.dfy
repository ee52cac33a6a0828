/** The first two examples published for SHA-256, in appendix B of FIPS 180-2: the digests of a
    message of one block, "abc", and of one of two blocks, computed round by round. They fix every
    constant, rotation and addition of the compression function. */
module Sha256Vectors {
  import opened Bytes
  import opened Sha256
  import opened Words

  /** Eight words of the schedule from `t` on. */
  ghost predicate Scheduled(b: Block, t: nat, w0: Word, w1: Word, w2: Word, w3: Word, w4: Word, w5: Word, w6: Word,
                            w7: Word)
    requires t + 8 <= 64
  {
    && Schedule(b, t) == w0 && Schedule(b, t + 1) == w1 && Schedule(b, t + 2) == w2 && Schedule(b, t + 3) == w3
    && Schedule(b, t + 4) == w4 && Schedule(b, t + 5) == w5 && Schedule(b, t + 6) == w6 && Schedule(b, t + 7) == w7
  }

  /** Eight words of the block itself. */
  ghost predicate Heads(b: Block, t: nat, w0: Word, w1: Word, w2: Word, w3: Word, w4: Word, w5: Word, w6: Word,
                        w7: Word)
    requires t + 8 <= 16
  {
    && BlockWord(b, t) == w0 && BlockWord(b, t + 1) == w1 && BlockWord(b, t + 2) == w2 && BlockWord(b, t + 3) == w3
    && BlockWord(b, t + 4) == w4 && BlockWord(b, t + 5) == w5 && BlockWord(b, t + 6) == w6 && BlockWord(b, t + 7) == w7
  }

  /** The word of the schedule at `t`, from those before it. */
  function Extended(b: Block, t: nat): Word
    requires t < 64
  {
    if t < 16 then BlockWord(b, t)
    else Add(Add(Add(Schedule(b, t - 16), SmallSigma0(Schedule(b, t - 15))), Schedule(b, t - 7)),
      SmallSigma1(Schedule(b, t - 2)))
  }

  /** One more word and one more round. */
  lemma Turn(v: Vars, b: Block, t: nat, w: Word, a: Word, e: Word)
    requires t < 64 && Extended(b, t) == w
    requires var s := Steps(v, b, t); Step(s, K()[t], w) == Vars(a, s.a, s.b, s.c, e, s.e, s.f, s.g)
    ensures Schedule(b, t) == w
    ensures var s := Steps(v, b, t); Steps(v, b, t + 1) == Vars(a, s.a, s.b, s.c, e, s.e, s.f, s.g)
  {
    hide Step, K, SmallSigma0, SmallSigma1, BlockWord, Add;
  }

  lemma NoSteps(v: Vars, b: Block)
    ensures Steps(v, b, 0) == v
  {}

  lemma Constants0()
    ensures K()[0] == 0x428a2f98 && K()[1] == 0x71374491 && K()[2] == 0xb5c0fbcf && K()[3] == 0xe9b5dba5
    ensures K()[4] == 0x3956c25b && K()[5] == 0x59f111f1 && K()[6] == 0x923f82a4 && K()[7] == 0xab1c5ed5
  {}

  lemma Constants1()
    ensures K()[8] == 0xd807aa98 && K()[9] == 0x12835b01 && K()[10] == 0x243185be && K()[11] == 0x550c7dc3
    ensures K()[12] == 0x72be5d74 && K()[13] == 0x80deb1fe && K()[14] == 0x9bdc06a7 && K()[15] == 0xc19bf174
  {}

  lemma Constants2()
    ensures K()[16] == 0xe49b69c1 && K()[17] == 0xefbe4786 && K()[18] == 0x0fc19dc6 && K()[19] == 0x240ca1cc
    ensures K()[20] == 0x2de92c6f && K()[21] == 0x4a7484aa && K()[22] == 0x5cb0a9dc && K()[23] == 0x76f988da
  {}

  lemma Constants3()
    ensures K()[24] == 0x983e5152 && K()[25] == 0xa831c66d && K()[26] == 0xb00327c8 && K()[27] == 0xbf597fc7
    ensures K()[28] == 0xc6e00bf3 && K()[29] == 0xd5a79147 && K()[30] == 0x06ca6351 && K()[31] == 0x14292967
  {}

  lemma Constants4()
    ensures K()[32] == 0x27b70a85 && K()[33] == 0x2e1b2138 && K()[34] == 0x4d2c6dfc && K()[35] == 0x53380d13
    ensures K()[36] == 0x650a7354 && K()[37] == 0x766a0abb && K()[38] == 0x81c2c92e && K()[39] == 0x92722c85
  {}

  lemma Constants5()
    ensures K()[40] == 0xa2bfe8a1 && K()[41] == 0xa81a664b && K()[42] == 0xc24b8b70 && K()[43] == 0xc76c51a3
    ensures K()[44] == 0xd192e819 && K()[45] == 0xd6990624 && K()[46] == 0xf40e3585 && K()[47] == 0x106aa070
  {}

  lemma Constants6()
    ensures K()[48] == 0x19a4c116 && K()[49] == 0x1e376c08 && K()[50] == 0x2748774c && K()[51] == 0x34b0bcb5
    ensures K()[52] == 0x391c0cb3 && K()[53] == 0x4ed8aa4a && K()[54] == 0x5b9cca4f && K()[55] == 0x682e6ff3
  {}

  lemma Constants7()
    ensures K()[56] == 0x748f82ee && K()[57] == 0x78a5636f && K()[58] == 0x84c87814 && K()[59] == 0x8cc70208
    ensures K()[60] == 0x90befffa && K()[61] == 0xa4506ceb && K()[62] == 0xbef9a3f7 && K()[63] == 0xc67178f2
  {}

  /** The padded message "abc". */
  ghost predicate AbcStart(v: Vars, b: Block) {
    && v == Vars(0x6a09e667, 0xbb67ae85, 0x3c6ef372, 0xa54ff53a, 0x510e527f, 0x9b05688c, 0x1f83d9ab, 0x5be0cd19)
    && Heads(b, 0, 0x61626380, 0x00000000, 0x00000000, 0x00000000, 0x00000000, 0x00000000, 0x00000000, 0x00000000)
    && Heads(b, 8, 0x00000000, 0x00000000, 0x00000000, 0x00000000, 0x00000000, 0x00000000, 0x00000000, 0x00000018)
  }

  lemma Abc0(v: Vars, b: Block)
    requires AbcStart(v, b)
    ensures Scheduled(b, 0, 0x61626380, 0x00000000, 0x00000000, 0x00000000, 0x00000000, 0x00000000, 0x00000000,
                      0x00000000)
    ensures Steps(v, b, 8) == Vars(0x85a07b5f, 0xe5030380, 0x2b4209f5, 0x04409a6a, 0x0c657a79, 0x9b27a401, 0x714260ad,
            0x43ada245)
  {
    hide Schedule, Steps, K, BlockWord;
    Constants0();
    NoSteps(v, b);
    Turn(v, b, 0, 0x61626380, 0x5d6aebcd, 0xfa2a4622);
    Turn(v, b, 1, 0x00000000, 0x5a6ad9ad, 0x78ce7989);
    Turn(v, b, 2, 0x00000000, 0xc8c347a7, 0xf92939eb);
    Turn(v, b, 3, 0x00000000, 0xd550f666, 0x24e00850);
    Turn(v, b, 4, 0x00000000, 0x04409a6a, 0x43ada245);
    Turn(v, b, 5, 0x00000000, 0x2b4209f5, 0x714260ad);
    Turn(v, b, 6, 0x00000000, 0xe5030380, 0x9b27a401);
    Turn(v, b, 7, 0x00000000, 0x85a07b5f, 0x0c657a79);
  }

  lemma Abc1(v: Vars, b: Block)
    requires AbcStart(v, b)
    ensures Scheduled(b, 8, 0x00000000, 0x00000000, 0x00000000, 0x00000000, 0x00000000, 0x00000000, 0x00000000,
                      0x00000018)
    ensures Steps(v, b, 16) == Vars(0xb0fa238e, 0xc0645fde, 0xd932eb16, 0x87912990, 0x07590dcd, 0x0b92f20c,
            0x745a48de, 0x1e578218)
  {
    hide Schedule, Steps, K, BlockWord;
    Constants1();
    Abc0(v, b);
    Turn(v, b, 8, 0x00000000, 0x8e04ecb9, 0x32ca2d8c);
    Turn(v, b, 9, 0x00000000, 0x8c87346b, 0x1cc92596);
    Turn(v, b, 10, 0x00000000, 0x4798a3f4, 0x436b23e8);
    Turn(v, b, 11, 0x00000000, 0xf71fc5a9, 0x816fd6e9);
    Turn(v, b, 12, 0x00000000, 0x87912990, 0x1e578218);
    Turn(v, b, 13, 0x00000000, 0xd932eb16, 0x745a48de);
    Turn(v, b, 14, 0x00000000, 0xc0645fde, 0x0b92f20c);
    Turn(v, b, 15, 0x00000018, 0xb0fa238e, 0x07590dcd);
  }

  lemma Abc2(v: Vars, b: Block)
    requires AbcStart(v, b)
    ensures Scheduled(b, 16, 0x61626380, 0x000f0000, 0x7da86405, 0x600003c6, 0x3e9d7b78, 0x0183fc00, 0x12dcbfdb,
                      0xe2e2c38e)
    ensures Steps(v, b, 24) == Vars(0xc5d53d8d, 0xa7a3623f, 0xc2606d6d, 0x9dc68b63, 0xaa47c347, 0x49f5114a,
            0xe1257970, 0x8ada8930)
  {
    hide Schedule, Steps, K, BlockWord;
    Constants2();
    Abc0(v, b);
    Abc1(v, b);
    Turn(v, b, 16, 0x61626380, 0x21da9a9b, 0x8034229c);
    Turn(v, b, 17, 0x000f0000, 0xc2fbd9d1, 0x846ee454);
    Turn(v, b, 18, 0x7da86405, 0xfe777bbf, 0xcc899961);
    Turn(v, b, 19, 0x600003c6, 0xe1f20c33, 0xb0638179);
    Turn(v, b, 20, 0x3e9d7b78, 0x9dc68b63, 0x8ada8930);
    Turn(v, b, 21, 0x0183fc00, 0xc2606d6d, 0xe1257970);
    Turn(v, b, 22, 0x12dcbfdb, 0xa7a3623f, 0x49f5114a);
    Turn(v, b, 23, 0xe2e2c38e, 0xc5d53d8d, 0xaa47c347);
  }

  lemma Abc3(v: Vars, b: Block)
    requires AbcStart(v, b)
    ensures Scheduled(b, 24, 0xc8215c1a, 0xb73679a2, 0xe5bc3909, 0x32663c5b, 0x9d209d67, 0xec8726cb, 0x702138a4,
                      0xd3b7973b)
    ensures Steps(v, b, 32) == Vars(0x73b33bf5, 0xea992a22, 0xa0060b30, 0x363482c9, 0xba591112, 0x0109ab3a,
            0xade79437, 0x6112a3b7)
  {
    hide Schedule, Steps, K, BlockWord;
    Constants3();
    Abc1(v, b);
    Abc2(v, b);
    Turn(v, b, 24, 0xc8215c1a, 0x1c2c2838, 0x2823ef91);
    Turn(v, b, 25, 0xb73679a2, 0xcde8037d, 0x14383d8e);
    Turn(v, b, 26, 0xe5bc3909, 0xb62ec4bc, 0xc74c6516);
    Turn(v, b, 27, 0x32663c5b, 0x77d37528, 0xedffbff8);
    Turn(v, b, 28, 0x9d209d67, 0x363482c9, 0x6112a3b7);
    Turn(v, b, 29, 0xec8726cb, 0xa0060b30, 0xade79437);
    Turn(v, b, 30, 0x702138a4, 0xea992a22, 0x0109ab3a);
    Turn(v, b, 31, 0xd3b7973b, 0x73b33bf5, 0xba591112);
  }

  lemma Abc4(v: Vars, b: Block)
    requires AbcStart(v, b)
    ensures Scheduled(b, 32, 0x93f5997f, 0x3b68ba73, 0xaff4ffc1, 0xf10a5c62, 0x0a8b3996, 0x72af830a, 0x9409e33e,
                      0x24641522)
    ensures Steps(v, b, 40) == Vars(0x79ea687a, 0x6dc57a8a, 0x34df1604, 0x41a65cb1, 0x1efbc0a0, 0xf0781bc8,
            0xa507a53d, 0x0772a26b)
  {
    hide Schedule, Steps, K, BlockWord;
    Constants4();
    Abc2(v, b);
    Abc3(v, b);
    Turn(v, b, 32, 0x93f5997f, 0x98e12507, 0x9cd9f5f6);
    Turn(v, b, 33, 0x3b68ba73, 0xfe604df5, 0x59249dd3);
    Turn(v, b, 34, 0xaff4ffc1, 0xa9a7738c, 0x085f3833);
    Turn(v, b, 35, 0xf10a5c62, 0x65a0cfe4, 0xf4b002d6);
    Turn(v, b, 36, 0x0a8b3996, 0x41a65cb1, 0x0772a26b);
    Turn(v, b, 37, 0x72af830a, 0x34df1604, 0xa507a53d);
    Turn(v, b, 38, 0x9409e33e, 0x6dc57a8a, 0xf0781bc8);
    Turn(v, b, 39, 0x24641522, 0x79ea687a, 0x1efbc0a0);
  }

  lemma Abc5(v: Vars, b: Block)
    requires AbcStart(v, b)
    ensures Scheduled(b, 40, 0x9f47bf94, 0xf0a64f5a, 0x3e246a79, 0x27333ba3, 0x0c4763f2, 0x840abf27, 0x7a290d5d,
                      0x065c43da)
    ensures Steps(v, b, 48) == Vars(0x4172328d, 0xa14c14b0, 0x72ab4b91, 0x26628815, 0xfecf0bc6, 0xd57b94a9,
            0xb7755da1, 0xa80f11f0)
  {
    hide Schedule, Steps, K, BlockWord;
    Constants5();
    Abc3(v, b);
    Abc4(v, b);
    Turn(v, b, 40, 0x9f47bf94, 0xd6670766, 0x26352d63);
    Turn(v, b, 41, 0xf0a64f5a, 0xdf46652f, 0x838b2711);
    Turn(v, b, 42, 0x3e246a79, 0x17aa0dfe, 0xdecd4715);
    Turn(v, b, 43, 0x27333ba3, 0x9d4baf93, 0xfda24c2e);
    Turn(v, b, 44, 0x0c4763f2, 0x26628815, 0xa80f11f0);
    Turn(v, b, 45, 0x840abf27, 0x72ab4b91, 0xb7755da1);
    Turn(v, b, 46, 0x7a290d5d, 0xa14c14b0, 0xd57b94a9);
    Turn(v, b, 47, 0x065c43da, 0x4172328d, 0xfecf0bc6);
  }

  lemma Abc6(v: Vars, b: Block)
    requires AbcStart(v, b)
    ensures Scheduled(b, 48, 0xfb3e89cb, 0xcc7617db, 0xb9e66c34, 0xa9993667, 0x84badedd, 0xc21462bc, 0x1487472c,
                      0xb20f7a99)
    ensures Steps(v, b, 56) == Vars(0x38cc9913, 0x3ec45cdb, 0xf5702fdb, 0x101fd28f, 0x54cb266b, 0xe50e1b4f,
            0x9f4787c3, 0x529e7d00)
  {
    hide Schedule, Steps, K, BlockWord;
    Constants6();
    Abc4(v, b);
    Abc5(v, b);
    Turn(v, b, 48, 0xfb3e89cb, 0x05757ceb, 0xbd714038);
    Turn(v, b, 49, 0xcc7617db, 0xf11bfaa8, 0x6e5c390c);
    Turn(v, b, 50, 0xb9e66c34, 0x7a0508a1, 0x52f1ccf7);
    Turn(v, b, 51, 0xa9993667, 0x886e7a22, 0x49231c1e);
    Turn(v, b, 52, 0x84badedd, 0x101fd28f, 0x529e7d00);
    Turn(v, b, 53, 0xc21462bc, 0xf5702fdb, 0x9f4787c3);
    Turn(v, b, 54, 0x1487472c, 0x3ec45cdb, 0xe50e1b4f);
    Turn(v, b, 55, 0xb20f7a99, 0x38cc9913, 0x54cb266b);
  }

  lemma Abc7(v: Vars, b: Block)
    requires AbcStart(v, b)
    ensures Scheduled(b, 56, 0xef57b9cd, 0xebe6b238, 0x9fe3095e, 0x78bc8d4b, 0xa43fcf15, 0x668b2ff8, 0xeeaba2cc,
                      0x12b1edeb)
    ensures Steps(v, b, 64) == Vars(0x506e3058, 0xd39a2165, 0x04d24d6c, 0xb85e2ce9, 0x5ef50f24, 0xfb121210,
            0x948d25b6, 0x961f4894)
  {
    hide Schedule, Steps, K, BlockWord;
    Constants7();
    Abc5(v, b);
    Abc6(v, b);
    Turn(v, b, 56, 0xef57b9cd, 0xfcd1887b, 0x9b5e906c);
    Turn(v, b, 57, 0xebe6b238, 0xc062d46f, 0x7e44008e);
    Turn(v, b, 58, 0x9fe3095e, 0xffb70472, 0x6d83bfc6);
    Turn(v, b, 59, 0x78bc8d4b, 0xb6ae8fff, 0xb21bad3d);
    Turn(v, b, 60, 0xa43fcf15, 0xb85e2ce9, 0x961f4894);
    Turn(v, b, 61, 0x668b2ff8, 0x04d24d6c, 0x948d25b6);
    Turn(v, b, 62, 0xeeaba2cc, 0xd39a2165, 0xfb121210);
    Turn(v, b, 63, 0x12b1edeb, 0x506e3058, 0x5ef50f24);
  }

  /** The first block of the longer message. */
  ghost predicate FirstStart(v: Vars, b: Block) {
    && v == Vars(0x6a09e667, 0xbb67ae85, 0x3c6ef372, 0xa54ff53a, 0x510e527f, 0x9b05688c, 0x1f83d9ab, 0x5be0cd19)
    && Heads(b, 0, 0x61626364, 0x62636465, 0x63646566, 0x64656667, 0x65666768, 0x66676869, 0x6768696a, 0x68696a6b)
    && Heads(b, 8, 0x696a6b6c, 0x6a6b6c6d, 0x6b6c6d6e, 0x6c6d6e6f, 0x6d6e6f70, 0x6e6f7071, 0x80000000, 0x00000000)
  }

  lemma First0(v: Vars, b: Block)
    requires FirstStart(v, b)
    ensures Scheduled(b, 0, 0x61626364, 0x62636465, 0x63646566, 0x64656667, 0x65666768, 0x66676869, 0x6768696a,
                      0x68696a6b)
    ensures Steps(v, b, 8) == Vars(0xd237e6db, 0x485835b7, 0x55c8ef48, 0xf921c212, 0xa401d211, 0x39a5b2ca, 0x7ff91c94,
            0x05c4f88a)
  {
    hide Schedule, Steps, K, BlockWord;
    Constants0();
    NoSteps(v, b);
    Turn(v, b, 0, 0x61626364, 0x5d6aebb1, 0xfa2a4606);
    Turn(v, b, 1, 0x62636465, 0x2f2d5fcf, 0x4eb1cfce);
    Turn(v, b, 2, 0x63646566, 0x97651825, 0x62d5c49e);
    Turn(v, b, 3, 0x64656667, 0x4a8d64d5, 0x6494841b);
    Turn(v, b, 4, 0x65666768, 0xf921c212, 0x05c4f88a);
    Turn(v, b, 5, 0x66676869, 0x55c8ef48, 0x7ff91c94);
    Turn(v, b, 6, 0x6768696a, 0x485835b7, 0x39a5b2ca);
    Turn(v, b, 7, 0x68696a6b, 0xd237e6db, 0xa401d211);
  }

  lemma First1(v: Vars, b: Block)
    requires FirstStart(v, b)
    ensures Scheduled(b, 8, 0x696a6b6c, 0x6a6b6c6d, 0x6b6c6d6e, 0x6c6d6e6f, 0x6d6e6f70, 0x6e6f7071, 0x80000000,
                      0x00000000)
    ensures Steps(v, b, 16) == Vars(0xc3486194, 0xdd16cbb3, 0xd68e6457, 0x101a4861, 0x1496a54f, 0x9162aded,
            0x9243f8af, 0x839a0fc9)
  {
    hide Schedule, Steps, K, BlockWord;
    Constants1();
    First0(v, b);
    Turn(v, b, 8, 0x696a6b6c, 0x359f2bce, 0xc09ffec4);
    Turn(v, b, 9, 0x6a6b6c6d, 0x3a474b2b, 0x9037b3b8);
    Turn(v, b, 10, 0x6b6c6d6e, 0xb8e2b4cb, 0x443ed29e);
    Turn(v, b, 11, 0x6c6d6e6f, 0x1762215c, 0xee1c97a8);
    Turn(v, b, 12, 0x6d6e6f70, 0x101a4861, 0x839a0fc9);
    Turn(v, b, 13, 0x6e6f7071, 0xd68e6457, 0x9243f8af);
    Turn(v, b, 14, 0x80000000, 0xdd16cbb3, 0x9162aded);
    Turn(v, b, 15, 0x00000000, 0xc3486194, 0x1496a54f);
  }

  lemma First2(v: Vars, b: Block)
    requires FirstStart(v, b)
    ensures Scheduled(b, 16, 0xeb8012ad, 0xa7c3ae92, 0x76e93ba2, 0xba42e743, 0x92a92204, 0xd847e75e, 0x9e160036,
                      0xb280a7cb)
    ensures Steps(v, b, 24) == Vars(0x59fce6b9, 0xae2e2d4f, 0x1b2b66b8, 0xd70ac17d, 0xa2c7d51d, 0xf074fc95,
            0xd560b028, 0x7cc6b262)
  {
    hide Schedule, Steps, K, BlockWord;
    Constants2();
    First0(v, b);
    First1(v, b);
    Turn(v, b, 16, 0xeb8012ad, 0xb9dcacb1, 0xd4f64250);
    Turn(v, b, 17, 0xa7c3ae92, 0x046a193e, 0x885370b6);
    Turn(v, b, 18, 0x76e93ba2, 0xf402f058, 0x6f433549);
    Turn(v, b, 19, 0xba42e743, 0x2139187b, 0x7c304206);
    Turn(v, b, 20, 0x92a92204, 0xd70ac17d, 0x7cc6b262);
    Turn(v, b, 21, 0xd847e75e, 0x1b2b66b8, 0xd560b028);
    Turn(v, b, 22, 0x9e160036, 0xae2e2d4f, 0xf074fc95);
    Turn(v, b, 23, 0xb280a7cb, 0x59fce6b9, 0xa2c7d51d);
  }

  lemma First3(v: Vars, b: Block)
    requires FirstStart(v, b)
    ensures Scheduled(b, 24, 0xddeb1516, 0xf36586f4, 0x969cd048, 0xe959d99d, 0x6accc0ec, 0xf54cb098, 0x2af1b2da,
                      0xee59c4c9)
    ensures Steps(v, b, 32) == Vars(0x5581ab07, 0xeb43f3ed, 0xdf7151a0, 0x74bcf468, 0xdf980085, 0x0635d880,
            0x7629c961, 0x72abaecd)
  {
    hide Schedule, Steps, K, BlockWord;
    Constants3();
    First1(v, b);
    First2(v, b);
    Turn(v, b, 24, 0xddeb1516, 0x4a885065, 0x763597fb);
    Turn(v, b, 25, 0xf36586f4, 0x573221da, 0x36e74eb4);
    Turn(v, b, 26, 0x969cd048, 0x128661da, 0x1162d575);
    Turn(v, b, 27, 0xe959d99d, 0x73f858af, 0xe77c797f);
    Turn(v, b, 28, 0x6accc0ec, 0x74bcf468, 0x72abaecd);
    Turn(v, b, 29, 0xf54cb098, 0xdf7151a0, 0x7629c961);
    Turn(v, b, 30, 0x2af1b2da, 0xeb43f3ed, 0x0635d880);
    Turn(v, b, 31, 0xee59c4c9, 0x5581ab07, 0xdf980085);
  }

  lemma First4(v: Vars, b: Block)
    requires FirstStart(v, b)
    ensures Scheduled(b, 32, 0xa835e16a, 0x1dff4429, 0xd6e15959, 0xc397cd6e, 0x6f1801ca, 0x21574205, 0x35ff7a84,
                      0x9743ee78)
    ensures Steps(v, b, 40) == Vars(0x7e4d30b8, 0x91ac9d5d, 0xa985b4be, 0x2c55d3a6, 0x9f5b9b6d, 0x68d8d590,
            0xf72bf353, 0xb067c1af)
  {
    hide Schedule, Steps, K, BlockWord;
    Constants4();
    First2(v, b);
    First3(v, b);
    Turn(v, b, 32, 0xa835e16a, 0x9fc905c8, 0xa94d2af1);
    Turn(v, b, 33, 0x1dff4429, 0x9ce5a62f, 0x6ef3b6bd);
    Turn(v, b, 34, 0xd6e15959, 0x1df8e885, 0x2a9e048e);
    Turn(v, b, 35, 0xc397cd6e, 0x0786dce8, 0xde2a21d1);
    Turn(v, b, 36, 0x6f1801ca, 0x2c55d3a6, 0xb067c1af);
    Turn(v, b, 37, 0x21574205, 0xa985b4be, 0xf72bf353);
    Turn(v, b, 38, 0x35ff7a84, 0x91ac9d5d, 0x68d8d590);
    Turn(v, b, 39, 0x9743ee78, 0x7e4d30b8, 0x9f5b9b6d);
  }

  lemma First5(v: Vars, b: Block)
    requires FirstStart(v, b)
    ensures Scheduled(b, 40, 0xe44183e7, 0x0d09f00d, 0x9c89af54, 0x042d5bef, 0x71f134d0, 0x0f94f463, 0x7e49dc63,
                      0x6f65c997)
    ensures Steps(v, b, 48) == Vars(0x13d82741, 0x165be9cd, 0x18f0d19d, 0xde71e2f2, 0xa7802a4d, 0xa483f080,
            0x6b88472c, 0xff61c636)
  {
    hide Schedule, Steps, K, BlockWord;
    Constants5();
    First3(v, b);
    First4(v, b);
    Turn(v, b, 40, 0xe44183e7, 0x7e056794, 0x423b26c0);
    Turn(v, b, 41, 0x0d09f00d, 0x508a16ab, 0x45459d97);
    Turn(v, b, 42, 0x9c89af54, 0xb62c7013, 0x80a92a00);
    Turn(v, b, 43, 0x042d5bef, 0x167361de, 0x41dd3844);
    Turn(v, b, 44, 0x71f134d0, 0xde71e2f2, 0xff61c636);
    Turn(v, b, 45, 0x0f94f463, 0x18f0d19d, 0x6b88472c);
    Turn(v, b, 46, 0x7e49dc63, 0x165be9cd, 0xa483f080);
    Turn(v, b, 47, 0x6f65c997, 0x13d82741, 0xa7802a4d);
  }

  lemma First6(v: Vars, b: Block)
    requires FirstStart(v, b)
    ensures Scheduled(b, 48, 0x0b706583, 0x179312ca, 0x503054e9, 0xba125c39, 0x7e9392c9, 0xd5cbaa1e, 0x78e0585d,
                      0xf6e7611c)
    ensures Steps(v, b, 56) == Vars(0x9e57c4a0, 0xf907b313, 0x1d6de87a, 0xb8d55619, 0xeec13548, 0x61a41711,
            0x3443bed4, 0x1c806a61)
  {
    hide Schedule, Steps, K, BlockWord;
    Constants6();
    First4(v, b);
    First5(v, b);
    Turn(v, b, 48, 0x0b706583, 0x017b9d99, 0xaeb10b60);
    Turn(v, b, 49, 0x179312ca, 0x543c99a1, 0x16f134b6);
    Turn(v, b, 50, 0x503054e9, 0x758ca97a, 0x100cf2ea);
    Turn(v, b, 51, 0xba125c39, 0x81c1cde0, 0x5c47eb7b);
    Turn(v, b, 52, 0x7e9392c9, 0xb8d55619, 0x1c806a61);
    Turn(v, b, 53, 0xd5cbaa1e, 0x1d6de87a, 0x3443bed4);
    Turn(v, b, 54, 0x78e0585d, 0xf907b313, 0x61a41711);
    Turn(v, b, 55, 0xf6e7611c, 0x9e57c4a0, 0xeec13548);
  }

  lemma First7(v: Vars, b: Block)
    requires FirstStart(v, b)
    ensures Scheduled(b, 56, 0x8ac830ce, 0x8b47a303, 0xfd6e627f, 0x8c6e2c6a, 0x4001adf1, 0x1a3dd097, 0xa9df6f62,
                      0x6aa60a39)
    ensures Steps(v, b, 64) == Vars(0x1bdc6f6f, 0x86126910, 0xf6f443f8, 0xbcfce922, 0x25d2430a, 0x2fc08f85,
            0xacc75916, 0x962d8621)
  {
    hide Schedule, Steps, K, BlockWord;
    Constants7();
    First5(v, b);
    First6(v, b);
    Turn(v, b, 56, 0x8ac830ce, 0x71629856, 0x2f6c8c4e);
    Turn(v, b, 57, 0x8b47a303, 0x7c015a2c, 0xcb9d3dd0);
    Turn(v, b, 58, 0xfd6e627f, 0x921fccb6, 0x43d8a034);
    Turn(v, b, 59, 0x8c6e2c6a, 0xe18f259a, 0x51e15869);
    Turn(v, b, 60, 0x4001adf1, 0xbcfce922, 0x962d8621);
    Turn(v, b, 61, 0x1a3dd097, 0xf6f443f8, 0xacc75916);
    Turn(v, b, 62, 0xa9df6f62, 0x86126910, 0x2fc08f85);
    Turn(v, b, 63, 0x6aa60a39, 0x1bdc6f6f, 0x25d2430a);
  }

  /** Its second block. */
  ghost predicate SecondStart(v: Vars, b: Block) {
    && v == Vars(0x85e655d6, 0x417a1795, 0x3363376a, 0x624cde5c, 0x76e09589, 0xcac5f811, 0xcc4b32c1, 0xf20e533a)
    && Heads(b, 0, 0x00000000, 0x00000000, 0x00000000, 0x00000000, 0x00000000, 0x00000000, 0x00000000, 0x00000000)
    && Heads(b, 8, 0x00000000, 0x00000000, 0x00000000, 0x00000000, 0x00000000, 0x00000000, 0x00000000, 0x000001c0)
  }

  lemma Second0(v: Vars, b: Block)
    requires SecondStart(v, b)
    ensures Scheduled(b, 0, 0x00000000, 0x00000000, 0x00000000, 0x00000000, 0x00000000, 0x00000000, 0x00000000,
                      0x00000000)
    ensures Steps(v, b, 8) == Vars(0xbf9a93a0, 0x89bba3f1, 0x3eeb6c06, 0x185a5d79, 0x059abdd1, 0x0a34df03, 0xfe20cda6,
            0x8dff3001)
  {
    hide Schedule, Steps, K, BlockWord;
    Constants0();
    NoSteps(v, b);
    Turn(v, b, 0, 0x00000000, 0x7c20c838, 0x4670ae6e);
    Turn(v, b, 1, 0x00000000, 0x7c3c0f86, 0x8c51be64);
    Turn(v, b, 2, 0x00000000, 0xfd1eebdc, 0xaf71b9ea);
    Turn(v, b, 3, 0x00000000, 0xf268faa9, 0xe20362ef);
    Turn(v, b, 4, 0x00000000, 0x185a5d79, 0x8dff3001);
    Turn(v, b, 5, 0x00000000, 0x3eeb6c06, 0xfe20cda6);
    Turn(v, b, 6, 0x00000000, 0x89bba3f1, 0x0a34df03);
    Turn(v, b, 7, 0x00000000, 0xbf9a93a0, 0x059abdd1);
  }

  lemma Second1(v: Vars, b: Block)
    requires SecondStart(v, b)
    ensures Scheduled(b, 8, 0x00000000, 0x00000000, 0x00000000, 0x00000000, 0x00000000, 0x00000000, 0x00000000,
                      0x000001c0)
    ensures Steps(v, b, 16) == Vars(0x16a8cc79, 0x0cea5cbc, 0xd74080fa, 0x35ee996d, 0x0fcb1f6f, 0x60356548,
            0x68aa893f, 0x5c24e2a2)
  {
    hide Schedule, Steps, K, BlockWord;
    Constants1();
    Second0(v, b);
    Turn(v, b, 8, 0x00000000, 0x2c096744, 0xabfa465b);
    Turn(v, b, 9, 0x00000000, 0x2d964e86, 0xaa27ed82);
    Turn(v, b, 10, 0x00000000, 0x5b35025b, 0x10e77723);
    Turn(v, b, 11, 0x00000000, 0x5eb4ec40, 0xe11b4548);
    Turn(v, b, 12, 0x00000000, 0x35ee996d, 0x5c24e2a2);
    Turn(v, b, 13, 0x00000000, 0xd74080fa, 0x68aa893f);
    Turn(v, b, 14, 0x00000000, 0x0cea5cbc, 0x60356548);
    Turn(v, b, 15, 0x000001c0, 0x16a8cc79, 0x0fcb1f6f);
  }

  lemma Second2(v: Vars, b: Block)
    requires SecondStart(v, b)
    ensures Scheduled(b, 16, 0x00000000, 0x00d80000, 0x00000000, 0x00003677, 0x00000000, 0x1df5600d, 0x000001c0,
                      0x1c00501c)
    ensures Steps(v, b, 24) == Vars(0xa4195b91, 0xf13ae55b, 0xd44dc81a, 0x20aad899, 0xeddbd6ed, 0x966aa287,
            0x5bace62d, 0xcc4769f2)
  {
    hide Schedule, Steps, K, BlockWord;
    Constants2();
    Second0(v, b);
    Second1(v, b);
    Turn(v, b, 16, 0x00000000, 0xf16f634e, 0x8b21cdc1);
    Turn(v, b, 17, 0x00d80000, 0x23dcb6c2, 0xca9182d3);
    Turn(v, b, 18, 0x00000000, 0xdcff40fd, 0x69bf7b95);
    Turn(v, b, 19, 0x00003677, 0x76f1a2bc, 0x0dc84bb1);
    Turn(v, b, 20, 0x00000000, 0x20aad899, 0xcc4769f2);
    Turn(v, b, 21, 0x1df5600d, 0xd44dc81a, 0x5bace62d);
    Turn(v, b, 22, 0x000001c0, 0xf13ae55b, 0x966aa287);
    Turn(v, b, 23, 0x1c00501c, 0xa4195b91, 0xeddbd6ed);
  }

  lemma Second3(v: Vars, b: Block)
    requires SecondStart(v, b)
    ensures Scheduled(b, 24, 0x01b00000, 0x220a8d94, 0x0000a365, 0x177017e7, 0x63d38035, 0x090ab713, 0x4c7539ca,
                      0x0f19a8c9)
    ensures Steps(v, b, 32) == Vars(0xb0eab1c5, 0x02ef3a5f, 0x1cfa5eb0, 0xd958b529, 0xf6d93952, 0x5da10665,
            0x6c49db9f, 0xc2fa99b1)
  {
    hide Schedule, Steps, K, BlockWord;
    Constants3();
    Second1(v, b);
    Second2(v, b);
    Turn(v, b, 24, 0x01b00000, 0x4984fa79, 0xa530d939);
    Turn(v, b, 25, 0x220a8d94, 0xaa6cb982, 0x0b5eeea4);
    Turn(v, b, 26, 0x0000a365, 0x9450fbbc, 0x09166dda);
    Turn(v, b, 27, 0x177017e7, 0x0d936bab, 0x6e495d4b);
    Turn(v, b, 28, 0x63d38035, 0xd958b529, 0xc2fa99b1);
    Turn(v, b, 29, 0x090ab713, 0x1cfa5eb0, 0x6c49db9f);
    Turn(v, b, 30, 0x4c7539ca, 0x02ef3a5f, 0x5da10665);
    Turn(v, b, 31, 0x0f19a8c9, 0xb0eab1c5, 0xf6d93952);
  }

  lemma Second4(v: Vars, b: Block)
    requires SecondStart(v, b)
    ensures Scheduled(b, 32, 0x5df4b0c4, 0xe257036a, 0xc97bb6f1, 0xc5b46f4d, 0xf8253c4e, 0xa558d189, 0x78696285,
                      0xed07117f)
    ensures Steps(v, b, 40) == Vars(0x221b8a5a, 0xadca7a96, 0xd949682b, 0x2f11c939, 0x0b82c5eb, 0xc6cce4ff,
            0x32d99008, 0xfed4ce1d)
  {
    hide Schedule, Steps, K, BlockWord;
    Constants4();
    Second2(v, b);
    Second3(v, b);
    Turn(v, b, 32, 0x5df4b0c4, 0x0bfba73c, 0x8b99e3a9);
    Turn(v, b, 33, 0xe257036a, 0x4bd1df96, 0x905e44ac);
    Turn(v, b, 34, 0xc97bb6f1, 0x9907f1b6, 0x66c3043d);
    Turn(v, b, 35, 0xc5b46f4d, 0xecde4e0d, 0x5dc119e6);
    Turn(v, b, 36, 0xf8253c4e, 0x2f11c939, 0xfed4ce1d);
    Turn(v, b, 37, 0xa558d189, 0xd949682b, 0x32d99008);
    Turn(v, b, 38, 0x78696285, 0xadca7a96, 0xc6cce4ff);
    Turn(v, b, 39, 0xed07117f, 0x221b8a5a, 0x0b82c5eb);
  }

  lemma Second5(v: Vars, b: Block)
    requires SecondStart(v, b)
    ensures Scheduled(b, 40, 0x107358f6, 0x390ae496, 0x565010a2, 0xc51d7d44, 0x9e74c972, 0x6614b561, 0x30fc129d,
                      0x9ac684a8)
    ensures Steps(v, b, 48) == Vars(0xd7354d5b, 0x0b3303a7, 0x104a7db4, 0x0f154e11, 0xaad55b6b, 0xbbe1c39a,
            0x5348e8f6, 0x6f9517cb)
  {
    hide Schedule, Steps, K, BlockWord;
    Constants5();
    Second3(v, b);
    Second4(v, b);
    Turn(v, b, 40, 0x107358f6, 0x12d97845, 0xe4213ca2);
    Turn(v, b, 41, 0x390ae496, 0x2c794876, 0xff6759ba);
    Turn(v, b, 42, 0x565010a2, 0x8300fca2, 0xe0e3457c);
    Turn(v, b, 43, 0xc51d7d44, 0xf2ad6322, 0xcc48c7f3);
    Turn(v, b, 44, 0x9e74c972, 0x0f154e11, 0x6f9517cb);
    Turn(v, b, 45, 0x6614b561, 0x104a7db4, 0x5348e8f6);
    Turn(v, b, 46, 0x30fc129d, 0x0b3303a7, 0xbbe1c39a);
    Turn(v, b, 47, 0x9ac684a8, 0xd7354d5b, 0xaad55b6b);
  }

  lemma Second6(v: Vars, b: Block)
    requires SecondStart(v, b)
    ensures Scheduled(b, 48, 0x2b658dbd, 0xe290f793, 0x9eebb24c, 0x9713b5de, 0x41061ab7, 0xe022e23b, 0x0772079e,
                      0x7de22d9c)
    ensures Steps(v, b, 56) == Vars(0x92952710, 0xd9f0c115, 0xec02560a, 0x4eca6fa0, 0x226806d6, 0x624150c4,
            0x7151df8e, 0x989ed071)
  {
    hide Schedule, Steps, K, BlockWord;
    Constants6();
    Second4(v, b);
    Second5(v, b);
    Turn(v, b, 48, 0x2b658dbd, 0xb736d7a6, 0x68f25260);
    Turn(v, b, 49, 0xe290f793, 0x2748e5ec, 0xd4b58576);
    Turn(v, b, 50, 0x9eebb24c, 0xd8aabcf9, 0x27844711);
    Turn(v, b, 51, 0x9713b5de, 0x1a6bcf6a, 0xff5e99d0);
    Turn(v, b, 52, 0x41061ab7, 0x4eca6fa0, 0x989ed071);
    Turn(v, b, 53, 0xe022e23b, 0xec02560a, 0x7151df8e);
    Turn(v, b, 54, 0x0772079e, 0xd9f0c115, 0x624150c4);
    Turn(v, b, 55, 0x7de22d9c, 0x92952710, 0x226806d6);
  }

  lemma Second7(v: Vars, b: Block)
    requires SecondStart(v, b)
    ensures Scheduled(b, 56, 0xc8b83778, 0x75a79849, 0xd93dbddb, 0x0a036c9d, 0xcb4f6ac6, 0x823f97e2, 0xea2f2a7a,
                      0xb9018b52)
    ensures Steps(v, b, 64) == Vars(0x9ea7148b, 0x908c2123, 0xb25cef29, 0xa9f181dd, 0x2c5c4ed0, 0x9a392956,
            0x2aa1bb13, 0x27ccb387)
  {
    hide Schedule, Steps, K, BlockWord;
    Constants7();
    Second5(v, b);
    Second6(v, b);
    Turn(v, b, 56, 0xc8b83778, 0x20d4d0e4, 0x4e515a4d);
    Turn(v, b, 57, 0x75a79849, 0x4348eb1f, 0xc21eddf9);
    Turn(v, b, 58, 0xd93dbddb, 0x286fe5f0, 0x54076664);
    Turn(v, b, 59, 0x0a036c9d, 0x1c4cddd9, 0xf487a853);
    Turn(v, b, 60, 0xcb4f6ac6, 0xa9f181dd, 0x27ccb387);
    Turn(v, b, 61, 0x823f97e2, 0xb25cef29, 0x2aa1bb13);
    Turn(v, b, 62, 0xea2f2a7a, 0x908c2123, 0x9a392956);
    Turn(v, b, 63, 0xb9018b52, 0x9ea7148b, 0x2c5c4ed0);
  }

  // ------------------------------------------------------------ the messages

  /** "abc" */
  const ABC: seq<Byte> := [0x61, 0x62, 0x63]

  /** "abcdbcdecdefdefgefghfghighijhijkijkljklmklmnlmnomnopnopq": words of four letters in
      alphabetical order, each one letter further. */
  const LONGER: seq<Byte> := seq(56, k requires 0 <= k < 56 => 0x61 + k / 4 + k % 4)

  lemma HeadIs(b: Block, i: nat, p: Byte, q: Byte, r: Byte, s: Byte, w: Word)
    requires i < 16 && b[4 * i] == p && b[4 * i + 1] == q && b[4 * i + 2] == r && b[4 * i + 3] == s
    requires Num(w) == BigEndian4(p, q, r, s)
    ensures BlockWord(b, i) == w
  {
    hide Num, BlockWord, BigEndian4;
    BlockWordValue(b, i);
    FourByteValue(b[4 * i..4 * i + 4]);
    NumInjective(BlockWord(b, i), w);
  }

  lemma ZeroHead(b: Block, i: nat)
    requires i < 16 && forall k :: 4 * i <= k < 4 * i + 4 ==> b[k] == 0
    ensures BlockWord(b, i) == 0
  {
    HeadIs(b, i, 0, 0, 0, 0, 0);
  }

  lemma PadLength(m: seq<Byte>)
    ensures |Pad(m)| == |m| + 9 + Gap(|m|)
  {
    hide Gap, LengthField, BitLength;
  }

  /** What is where in a padded message. */
  lemma PadAt(m: seq<Byte>, k: nat)
    requires k < |Pad(m)|
    ensures Pad(m)[k] == if k < |m| then m[k] else if k == |m| then 0x80 else if k < |Pad(m)| - 8 then 0
                         else LengthField(BitLength(|m|))[k - (|Pad(m)| - 8)]
  {
    hide Gap, LengthField, BitLength;
  }

  lemma LengthBytes(n: nat, i: nat)
    requires n < 0x1_0000 && i < 8
    ensures LengthField(n)[i] == if i < 6 then 0 else if i == 6 then n / 256 else n % 256
  {
    if i < 6 { Vanishes(n, 7 - i); }
    assert ShiftRight(n, 1) == ShiftRight(n / 256, 0) == n / 256 && ShiftRight(n, 0) == n;
  }

  lemma {:induction false} Vanishes(n: nat, k: nat)
    requires n < 0x1_0000 && k >= 2
    ensures ShiftRight(n, k) == 0
  {
    if k > 2 {
      Vanishes(n / 256, k - 1);
    } else {
      assert ShiftRight(n / 256, 1) == ShiftRight(n / 256 / 256, 0);
    }
  }

  lemma AbcBytes(k: nat)
    requires k < 64
    ensures |Pad(ABC)| == 64
    ensures Pad(ABC)[k] == if k < 3 then 0x61 + k else if k == 3 then 0x80 else if k == 63 then 24 else 0
  {
    assert Gap(3) == 52 && BitLength(3) == 24;
    hide Pad, LengthField, Gap;
    PadLength(ABC);
    PadAt(ABC, k);
    if k >= 56 { LengthBytes(24, k - 56); }
  }

  lemma AbcPadded()
    ensures |Pad(ABC)| == 64 && AbcStart(Load(H0), Pad(ABC))
  {
    hide Pad, BlockWord;
    forall k | 0 <= k < 64
      ensures |Pad(ABC)| == 64
      ensures Pad(ABC)[k] == if k < 3 then 0x61 + k else if k == 3 then 0x80 else if k == 63 then 24 else 0
    {
      AbcBytes(k);
    }
    AbcBytes(0);
    HeadIs(Pad(ABC), 0, 0x61, 0x62, 0x63, 0x80, 0x61626380);
    forall i | 1 <= i < 15 ensures BlockWord(Pad(ABC), i) == 0 { ZeroHead(Pad(ABC), i); }
    HeadIs(Pad(ABC), 15, 0, 0, 0, 24, 0x00000018);
  }

  lemma LongerBytes(k: nat)
    requires k < 128
    ensures |Pad(LONGER)| == 128
    ensures Pad(LONGER)[k] == if k < 56 then 0x61 + k / 4 + k % 4 else if k == 56 then 0x80 else if k == 126 then 0x01
                              else if k == 127 then 0xc0 else 0
  {
    assert Gap(56) == 63 && BitLength(56) == 448;
    hide Pad, LengthField, Gap;
    PadLength(LONGER);
    PadAt(LONGER, k);
    if k >= 120 { LengthBytes(448, k - 120); }
  }

  /** The first block of the padded longer message. */
  ghost predicate Lettered(p: Block) {
    forall k :: 0 <= k < 64 ==> p[k] == if k < 56 then 0x61 + k / 4 + k % 4 else if k == 56 then 0x80 else 0
  }

  lemma HeadAt(p: Block, i: nat, w: Word)
    requires Lettered(p) && i < 14 && Num(w) == BigEndian4(0x61 + i, 0x62 + i, 0x63 + i, 0x64 + i)
    ensures BlockWord(p, i) == w
  {
    hide Num, BlockWord, BigEndian4;
    HeadIs(p, i, 0x61 + i, 0x62 + i, 0x63 + i, 0x64 + i, w);
  }

  lemma LastHeads(p: Block)
    requires Lettered(p)
    ensures BlockWord(p, 14) == 0x80000000 && BlockWord(p, 15) == 0
  {
    HeadIs(p, 14, 0x80, 0, 0, 0, 0x80000000);
    ZeroHead(p, 15);
  }

  lemma FirstHeads(p: Block)
    requires Lettered(p)
    ensures FirstStart(Load(H0), p)
  {
    hide BlockWord, Lettered;
    HeadAt(p, 0, 0x61626364);
    HeadAt(p, 1, 0x62636465);
    HeadAt(p, 2, 0x63646566);
    HeadAt(p, 3, 0x64656667);
    HeadAt(p, 4, 0x65666768);
    HeadAt(p, 5, 0x66676869);
    HeadAt(p, 6, 0x6768696a);
    HeadAt(p, 7, 0x68696a6b);
    HeadAt(p, 8, 0x696a6b6c);
    HeadAt(p, 9, 0x6a6b6c6d);
    HeadAt(p, 10, 0x6b6c6d6e);
    HeadAt(p, 11, 0x6c6d6e6f);
    HeadAt(p, 12, 0x6d6e6f70);
    HeadAt(p, 13, 0x6e6f7071);
    LastHeads(p);
  }

  lemma FirstPadded()
    ensures |Pad(LONGER)| == 128 && FirstStart(Load(H0), Pad(LONGER)[..64])
  {
    hide Pad, FirstStart;
    LongerBytes(0);
    var p := Pad(LONGER)[..64];
    forall k | 0 <= k < 64 ensures p[k] == if k < 56 then 0x61 + k / 4 + k % 4 else if k == 56 then 0x80 else 0 {
      LongerBytes(k);
    }
    FirstHeads(p);
  }

  lemma SecondPadded(v: Vars)
    requires v == Vars(0x85e655d6, 0x417a1795, 0x3363376a, 0x624cde5c, 0x76e09589, 0xcac5f811, 0xcc4b32c1, 0xf20e533a)
    ensures |Pad(LONGER)| == 128 && SecondStart(v, Pad(LONGER)[64..])
  {
    hide Pad, BlockWord;
    LongerBytes(0);
    var p := Pad(LONGER)[64..];
    forall k | 0 <= k < 64 ensures p[k] == if k == 62 then 0x01 else if k == 63 then 0xc0 else 0 {
      LongerBytes(64 + k);
    }
    forall i | 0 <= i < 15 ensures BlockWord(p, i) == 0 { ZeroHead(p, i); }
    HeadIs(p, 15, 0, 0, 0x01, 0xc0, 0x000001c0);
  }

  // ------------------------------------------------------------- the digests

  lemma CompressIs(h: Hash, b: Block, g: Hash)
    requires var s := Steps(Load(h), b, 64);
             && Add(h[0], s.a) == g[0] && Add(h[1], s.b) == g[1] && Add(h[2], s.c) == g[2] && Add(h[3], s.d) == g[3]
             && Add(h[4], s.e) == g[4] && Add(h[5], s.f) == g[5] && Add(h[6], s.g) == g[6] && Add(h[7], s.h) == g[7]
    ensures Compress(h, b) == g
  {
    hide Steps, Add;
    forall i | 0 <= i < 8 ensures Compress(h, b)[i] == g[i] {}
  }

  lemma FoldBlock(h: Hash, b: Block)
    ensures Fold(h, b) == Compress(h, b)
  {
    hide Compress;
    FoldNone(h);
    assert [] + b == b;
    FoldOne(h, [], b);
  }

  const ABC_HASH: Hash :=
    [0xba7816bf, 0x8f01cfea, 0x414140de, 0x5dae2223, 0xb00361a3, 0x96177a9c, 0xb410ff61, 0xf20015ad]

  const FIRST_HASH: Hash :=
    [0x85e655d6, 0x417a1795, 0x3363376a, 0x624cde5c, 0x76e09589, 0xcac5f811, 0xcc4b32c1, 0xf20e533a]

  const LONGER_HASH: Hash :=
    [0x248d6a61, 0xd20638b8, 0xe5c02693, 0x0c3e6039, 0xa33ce459, 0x64ff2167, 0xf6ecedd4, 0x19db06c1]

  lemma AbcHash()
    ensures |Pad(ABC)| == 64 && Compress(H0, Pad(ABC)) == ABC_HASH
  {
    hide Steps, Compress, Pad, AbcStart;
    AbcPadded();
    Abc7(Load(H0), Pad(ABC));
    CompressIs(H0, Pad(ABC), ABC_HASH);
  }

  lemma FirstHash()
    ensures |Pad(LONGER)| == 128 && Compress(H0, Pad(LONGER)[..64]) == FIRST_HASH
  {
    hide Steps, Compress, Pad, FirstStart;
    FirstPadded();
    First7(Load(H0), Pad(LONGER)[..64]);
    CompressIs(H0, Pad(LONGER)[..64], FIRST_HASH);
  }

  lemma SecondHash()
    ensures |Pad(LONGER)| == 128 && Compress(FIRST_HASH, Pad(LONGER)[64..]) == LONGER_HASH
  {
    hide Steps, Compress, Pad, SecondStart;
    SecondPadded(Load(FIRST_HASH));
    Second7(Load(FIRST_HASH), Pad(LONGER)[64..]);
    CompressIs(FIRST_HASH, Pad(LONGER)[64..], LONGER_HASH);
  }

  const ABC_DIGEST: seq<Byte> :=
    [0xba, 0x78, 0x16, 0xbf, 0x8f, 0x01, 0xcf, 0xea] +
    [0x41, 0x41, 0x40, 0xde, 0x5d, 0xae, 0x22, 0x23] +
    [0xb0, 0x03, 0x61, 0xa3, 0x96, 0x17, 0x7a, 0x9c] +
    [0xb4, 0x10, 0xff, 0x61, 0xf2, 0x00, 0x15, 0xad]

  lemma AbcOutput()
    ensures Output(ABC_HASH) == ABC_DIGEST
  {
    hide Output;
    OutputIs(ABC_HASH, ABC_DIGEST);
  }

  const LONGER_DIGEST: seq<Byte> :=
    [0x24, 0x8d, 0x6a, 0x61, 0xd2, 0x06, 0x38, 0xb8] +
    [0xe5, 0xc0, 0x26, 0x93, 0x0c, 0x3e, 0x60, 0x39] +
    [0xa3, 0x3c, 0xe4, 0x59, 0x64, 0xff, 0x21, 0x67] +
    [0xf6, 0xec, 0xed, 0xd4, 0x19, 0xdb, 0x06, 0xc1]

  lemma LongerOutput()
    ensures Output(LONGER_HASH) == LONGER_DIGEST
  {
    hide Output;
    OutputIs(LONGER_HASH, LONGER_DIGEST);
  }

  /** The published digest of "abc". */
  lemma AbcDigest()
    ensures Digest(ABC) == ABC_DIGEST
  {
    hide Compress, Fold, Pad, Output;
    AbcHash();
    FoldBlock(H0, Pad(ABC));
    AbcOutput();
  }

  /** That of the longer message. */
  lemma LongerDigest()
    ensures Digest(LONGER) == LONGER_DIGEST
  {
    hide Compress, Fold, Pad, Output;
    FirstHash();
    SecondHash();
    var p, q := Pad(LONGER)[..64], Pad(LONGER)[64..];
    assert p + q == Pad(LONGER);
    FoldAppend(H0, p, q);
    FoldBlock(H0, p);
    FoldBlock(FIRST_HASH, q);
    LongerOutput();
  }
}
