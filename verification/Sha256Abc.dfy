/** The example of FIPS 180-4: the digest of the three bytes "abc", carried through schedule and rounds.
    A slip in any function, constant, order or index of the specification would show here. */
module Sha256Abc {
  import opened Sha256

  const ABC: seq<byte> := [0x61, 0x62, 0x63]

  // ----- The block -----

  predicate IsAbcBlock(block: seq<byte>) {
    && |block| == 64 && block[0] == 0x61 && block[1] == 0x62 && block[2] == 0x63 && block[3] == 0x80
    && (forall i :: 4 <= i < 63 ==> block[i] == 0) && block[63] == 24
  }

  lemma LengthIs24()
    ensures BigEndian(24, 8) == [0, 0, 0, 0, 0, 0, 0, 24]
  {
    LengthIsZero();
    assert BigEndian(24, 8) == BigEndian(0, 7) + [24];
  }

  lemma LengthIsZero()
    ensures BigEndian(0, 7) == [0, 0, 0, 0, 0, 0, 0]
  {
    assert BigEndian(0, 1) == [0];
    assert BigEndian(0, 2) == [0, 0];
    assert BigEndian(0, 3) == [0, 0, 0];
    assert BigEndian(0, 4) == [0, 0, 0, 0];
    assert BigEndian(0, 5) == [0, 0, 0, 0, 0];
    assert BigEndian(0, 6) == [0, 0, 0, 0, 0, 0];
  }

  lemma PaddedAbc()
    ensures IsAbcBlock(Padded(ABC))
  {
    hide BigEndian;
    LengthIs24();
    assert ZeroCount(3) == 52;
  }

  // ----- The schedule -----

  /** Words 0 to 15: the block itself. */
  lemma FirstWord(block: seq<byte>)
    requires IsAbcBlock(block)
    ensures Schedule(block, 0) == 0x61626380
  {
    hide Join;
    assert Word(0x61, 0x62, 0x63, 0x80) == Join(0x61, 0x62, 0x63, 0x80) by { Bytes(); }
    JoinAbc();
  }

  lemma Bytes()
    ensures 0x61 as bv32 == 0x61 && 0x62 as bv32 == 0x62 && 0x63 as bv32 == 0x63 && 0x80 as bv32 == 0x80
    ensures 0 as bv32 == 0 && 24 as bv32 == 24
  {
  }

  lemma JoinAbc()
    ensures Join(0x61, 0x62, 0x63, 0x80) == 0x61626380 && Join(0, 0, 0, 0) == 0 && Join(0, 0, 0, 24) == 24
  {
  }

  lemma ZeroWord(block: seq<byte>, t: nat)
    requires IsAbcBlock(block) && 0 < t < 15
    ensures Schedule(block, t) == 0
  {
    hide Join;
    JoinAbc();
    Bytes();
    assert Word(0, 0, 0, 0) == 0;
  }

  lemma LastWord(block: seq<byte>)
    requires IsAbcBlock(block)
    ensures Schedule(block, 15) == 0x18
  {
    hide Join;
    JoinAbc();
    Bytes();
    assert Word(0, 0, 0, 24) == 24;
  }

  lemma Extended(block: seq<byte>, t: nat)
    requires |block| == 64 && 16 <= t < 64
    ensures Schedule(block, t) ==
            Extend(Schedule(block, t - 2), Schedule(block, t - 7), Schedule(block, t - 15), Schedule(block, t - 16))
  {
  }

  lemma Words0(block: seq<byte>)
    requires IsAbcBlock(block)
    ensures Schedule(block, 0) == 0x61626380 && Schedule(block, 15) == 0x18
    ensures forall t :: 0 < t < 15 ==> Schedule(block, t) == 0
  {
    hide Schedule;
    FirstWord(block);
    LastWord(block);
    forall t | 0 < t < 15 ensures Schedule(block, t) == 0 { ZeroWord(block, t); }
  }

  lemma Words16(block: seq<byte>)
    requires IsAbcBlock(block)
    ensures Schedule(block, 16) == 0x61626380 && Schedule(block, 17) == 0x000f0000
    ensures Schedule(block, 18) == 0x7da86405 && Schedule(block, 19) == 0x600003c6
    ensures Schedule(block, 20) == 0x3e9d7b78 && Schedule(block, 21) == 0x0183fc00
    ensures Schedule(block, 22) == 0x12dcbfdb && Schedule(block, 23) == 0xe2e2c38e
  {
    hide Schedule, Extend, IsAbcBlock;
    BlockLength(block);
    Words0(block);
    Sums16();
    Extended(block, 16);
    Extended(block, 17);
    Extended(block, 18);
    Extended(block, 19);
    Extended(block, 20);
    Extended(block, 21);
    Extended(block, 22);
    Extended(block, 23);
  }

  lemma Sums16()
    ensures Extend(0x00000000, 0x00000000, 0x00000000, 0x61626380) == 0x61626380
    ensures Extend(0x00000018, 0x00000000, 0x00000000, 0x00000000) == 0x000f0000
    ensures Extend(0x61626380, 0x00000000, 0x00000000, 0x00000000) == 0x7da86405
    ensures Extend(0x000f0000, 0x00000000, 0x00000000, 0x00000000) == 0x600003c6
    ensures Extend(0x7da86405, 0x00000000, 0x00000000, 0x00000000) == 0x3e9d7b78
    ensures Extend(0x600003c6, 0x00000000, 0x00000000, 0x00000000) == 0x0183fc00
    ensures Extend(0x3e9d7b78, 0x00000018, 0x00000000, 0x00000000) == 0x12dcbfdb
    ensures Extend(0x0183fc00, 0x61626380, 0x00000000, 0x00000000) == 0xe2e2c38e
  {
  }

  lemma Words24(block: seq<byte>)
    requires IsAbcBlock(block)
    ensures Schedule(block, 24) == 0xc8215c1a && Schedule(block, 25) == 0xb73679a2
    ensures Schedule(block, 26) == 0xe5bc3909 && Schedule(block, 27) == 0x32663c5b
    ensures Schedule(block, 28) == 0x9d209d67 && Schedule(block, 29) == 0xec8726cb
    ensures Schedule(block, 30) == 0x702138a4 && Schedule(block, 31) == 0xd3b7973b
  {
    hide Schedule, Extend, IsAbcBlock;
    BlockLength(block);
    Words0(block);
    Words16(block);
    Sums24();
    Extended(block, 24);
    Extended(block, 25);
    Extended(block, 26);
    Extended(block, 27);
    Extended(block, 28);
    Extended(block, 29);
    Extended(block, 30);
    Extended(block, 31);
  }

  lemma Sums24()
    ensures Extend(0x12dcbfdb, 0x000f0000, 0x00000000, 0x00000000) == 0xc8215c1a
    ensures Extend(0xe2e2c38e, 0x7da86405, 0x00000000, 0x00000000) == 0xb73679a2
    ensures Extend(0xc8215c1a, 0x600003c6, 0x00000000, 0x00000000) == 0xe5bc3909
    ensures Extend(0xb73679a2, 0x3e9d7b78, 0x00000000, 0x00000000) == 0x32663c5b
    ensures Extend(0xe5bc3909, 0x0183fc00, 0x00000000, 0x00000000) == 0x9d209d67
    ensures Extend(0x32663c5b, 0x12dcbfdb, 0x00000000, 0x00000000) == 0xec8726cb
    ensures Extend(0x9d209d67, 0xe2e2c38e, 0x00000018, 0x00000000) == 0x702138a4
    ensures Extend(0xec8726cb, 0xc8215c1a, 0x61626380, 0x00000018) == 0xd3b7973b
  {
  }

  lemma Words32(block: seq<byte>)
    requires IsAbcBlock(block)
    ensures Schedule(block, 32) == 0x93f5997f && Schedule(block, 33) == 0x3b68ba73
    ensures Schedule(block, 34) == 0xaff4ffc1 && Schedule(block, 35) == 0xf10a5c62
    ensures Schedule(block, 36) == 0x0a8b3996 && Schedule(block, 37) == 0x72af830a
    ensures Schedule(block, 38) == 0x9409e33e && Schedule(block, 39) == 0x24641522
  {
    hide Schedule, Extend, IsAbcBlock;
    BlockLength(block);
    Words0(block);
    Words16(block);
    Words24(block);
    Sums32();
    Extended(block, 32);
    Extended(block, 33);
    Extended(block, 34);
    Extended(block, 35);
    Extended(block, 36);
    Extended(block, 37);
    Extended(block, 38);
    Extended(block, 39);
  }

  lemma Sums32()
    ensures Extend(0x702138a4, 0xb73679a2, 0x000f0000, 0x61626380) == 0x93f5997f
    ensures Extend(0xd3b7973b, 0xe5bc3909, 0x7da86405, 0x000f0000) == 0x3b68ba73
    ensures Extend(0x93f5997f, 0x32663c5b, 0x600003c6, 0x7da86405) == 0xaff4ffc1
    ensures Extend(0x3b68ba73, 0x9d209d67, 0x3e9d7b78, 0x600003c6) == 0xf10a5c62
    ensures Extend(0xaff4ffc1, 0xec8726cb, 0x0183fc00, 0x3e9d7b78) == 0x0a8b3996
    ensures Extend(0xf10a5c62, 0x702138a4, 0x12dcbfdb, 0x0183fc00) == 0x72af830a
    ensures Extend(0x0a8b3996, 0xd3b7973b, 0xe2e2c38e, 0x12dcbfdb) == 0x9409e33e
    ensures Extend(0x72af830a, 0x93f5997f, 0xc8215c1a, 0xe2e2c38e) == 0x24641522
  {
  }

  lemma Words40(block: seq<byte>)
    requires IsAbcBlock(block)
    ensures Schedule(block, 40) == 0x9f47bf94 && Schedule(block, 41) == 0xf0a64f5a
    ensures Schedule(block, 42) == 0x3e246a79 && Schedule(block, 43) == 0x27333ba3
    ensures Schedule(block, 44) == 0x0c4763f2 && Schedule(block, 45) == 0x840abf27
    ensures Schedule(block, 46) == 0x7a290d5d && Schedule(block, 47) == 0x065c43da
  {
    hide Schedule, Extend, IsAbcBlock;
    BlockLength(block);
    Words0(block);
    Words24(block);
    Words32(block);
    Sums40();
    Extended(block, 40);
    Extended(block, 41);
    Extended(block, 42);
    Extended(block, 43);
    Extended(block, 44);
    Extended(block, 45);
    Extended(block, 46);
    Extended(block, 47);
  }

  lemma Sums40()
    ensures Extend(0x9409e33e, 0x3b68ba73, 0xb73679a2, 0xc8215c1a) == 0x9f47bf94
    ensures Extend(0x24641522, 0xaff4ffc1, 0xe5bc3909, 0xb73679a2) == 0xf0a64f5a
    ensures Extend(0x9f47bf94, 0xf10a5c62, 0x32663c5b, 0xe5bc3909) == 0x3e246a79
    ensures Extend(0xf0a64f5a, 0x0a8b3996, 0x9d209d67, 0x32663c5b) == 0x27333ba3
    ensures Extend(0x3e246a79, 0x72af830a, 0xec8726cb, 0x9d209d67) == 0x0c4763f2
    ensures Extend(0x27333ba3, 0x9409e33e, 0x702138a4, 0xec8726cb) == 0x840abf27
    ensures Extend(0x0c4763f2, 0x24641522, 0xd3b7973b, 0x702138a4) == 0x7a290d5d
    ensures Extend(0x840abf27, 0x9f47bf94, 0x93f5997f, 0xd3b7973b) == 0x065c43da
  {
  }

  lemma Words48(block: seq<byte>)
    requires IsAbcBlock(block)
    ensures Schedule(block, 48) == 0xfb3e89cb && Schedule(block, 49) == 0xcc7617db
    ensures Schedule(block, 50) == 0xb9e66c34 && Schedule(block, 51) == 0xa9993667
    ensures Schedule(block, 52) == 0x84badedd && Schedule(block, 53) == 0xc21462bc
    ensures Schedule(block, 54) == 0x1487472c && Schedule(block, 55) == 0xb20f7a99
  {
    hide Schedule, Extend, IsAbcBlock;
    BlockLength(block);
    Words0(block);
    Words32(block);
    Words40(block);
    Sums48();
    Extended(block, 48);
    Extended(block, 49);
    Extended(block, 50);
    Extended(block, 51);
    Extended(block, 52);
    Extended(block, 53);
    Extended(block, 54);
    Extended(block, 55);
  }

  lemma Sums48()
    ensures Extend(0x7a290d5d, 0xf0a64f5a, 0x3b68ba73, 0x93f5997f) == 0xfb3e89cb
    ensures Extend(0x065c43da, 0x3e246a79, 0xaff4ffc1, 0x3b68ba73) == 0xcc7617db
    ensures Extend(0xfb3e89cb, 0x27333ba3, 0xf10a5c62, 0xaff4ffc1) == 0xb9e66c34
    ensures Extend(0xcc7617db, 0x0c4763f2, 0x0a8b3996, 0xf10a5c62) == 0xa9993667
    ensures Extend(0xb9e66c34, 0x840abf27, 0x72af830a, 0x0a8b3996) == 0x84badedd
    ensures Extend(0xa9993667, 0x7a290d5d, 0x9409e33e, 0x72af830a) == 0xc21462bc
    ensures Extend(0x84badedd, 0x065c43da, 0x24641522, 0x9409e33e) == 0x1487472c
    ensures Extend(0xc21462bc, 0xfb3e89cb, 0x9f47bf94, 0x24641522) == 0xb20f7a99
  {
  }

  lemma Words56(block: seq<byte>)
    requires IsAbcBlock(block)
    ensures Schedule(block, 56) == 0xef57b9cd && Schedule(block, 57) == 0xebe6b238
    ensures Schedule(block, 58) == 0x9fe3095e && Schedule(block, 59) == 0x78bc8d4b
    ensures Schedule(block, 60) == 0xa43fcf15 && Schedule(block, 61) == 0x668b2ff8
    ensures Schedule(block, 62) == 0xeeaba2cc && Schedule(block, 63) == 0x12b1edeb
  {
    hide Schedule, Extend, IsAbcBlock;
    BlockLength(block);
    Words0(block);
    Words40(block);
    Words48(block);
    Sums56();
    Extended(block, 56);
    Extended(block, 57);
    Extended(block, 58);
    Extended(block, 59);
    Extended(block, 60);
    Extended(block, 61);
    Extended(block, 62);
    Extended(block, 63);
  }

  lemma Sums56()
    ensures Extend(0x1487472c, 0xcc7617db, 0xf0a64f5a, 0x9f47bf94) == 0xef57b9cd
    ensures Extend(0xb20f7a99, 0xb9e66c34, 0x3e246a79, 0xf0a64f5a) == 0xebe6b238
    ensures Extend(0xef57b9cd, 0xa9993667, 0x27333ba3, 0x3e246a79) == 0x9fe3095e
    ensures Extend(0xebe6b238, 0x84badedd, 0x0c4763f2, 0x27333ba3) == 0x78bc8d4b
    ensures Extend(0x9fe3095e, 0xc21462bc, 0x840abf27, 0x0c4763f2) == 0xa43fcf15
    ensures Extend(0x78bc8d4b, 0x1487472c, 0x7a290d5d, 0x840abf27) == 0x668b2ff8
    ensures Extend(0xa43fcf15, 0xb20f7a99, 0x065c43da, 0x7a290d5d) == 0xeeaba2cc
    ensures Extend(0x668b2ff8, 0xef57b9cd, 0xfb3e89cb, 0x065c43da) == 0x12b1edeb
  {
  }

  lemma BlockLength(block: seq<byte>)
    requires IsAbcBlock(block)
    ensures |block| == 64
  {
  }

  // ----- The rounds -----

  lemma NextRound(block: seq<byte>, t: nat, v: Vars, k: bv32, w: bv32)
    requires |H0| == 8 && |block| == 64 && t < 64 && Rounds(H0, block, t) == v
    requires RoundConstant(t) == k && Schedule(block, t) == w
    ensures Rounds(H0, block, t + 1) == Round(v, k, w)
  {
  }

  lemma Rounds0(block: seq<byte>)
    requires |block| == 64
    ensures |H0| == 8 && Rounds(H0, block, 0) ==
            Vars(0x6a09e667, 0xbb67ae85, 0x3c6ef372, 0xa54ff53a,
                 0x510e527f, 0x9b05688c, 0x1f83d9ab, 0x5be0cd19)
  {
  }

  lemma Constants0()
    ensures RoundConstant(0) == 0x428a2f98 && RoundConstant(1) == 0x71374491
    ensures RoundConstant(2) == 0xb5c0fbcf && RoundConstant(3) == 0xe9b5dba5
    ensures RoundConstant(4) == 0x3956c25b && RoundConstant(5) == 0x59f111f1
    ensures RoundConstant(6) == 0x923f82a4 && RoundConstant(7) == 0xab1c5ed5
  {
  }

  lemma Rounds8(block: seq<byte>)
    requires IsAbcBlock(block)
    ensures |H0| == 8 && |block| == 64 && Rounds(H0, block, 8) ==
            Vars(0x85a07b5f, 0xe5030380, 0x2b4209f5, 0x04409a6a,
                 0x0c657a79, 0x9b27a401, 0x714260ad, 0x43ada245)
  {
    hide Rounds, RoundConstant, Schedule, H0, IsAbcBlock;
    BlockLength(block);
    Rounds0(block);
    Constants0();
    Words0(block);
    var v0 := Vars(0x6a09e667, 0xbb67ae85, 0x3c6ef372, 0xa54ff53a,
                  0x510e527f, 0x9b05688c, 0x1f83d9ab, 0x5be0cd19);
    NextRound(block, 0, v0, 0x428a2f98, 0x61626380);
    var v1 := Vars(0x5d6aebcd, 0x6a09e667, 0xbb67ae85, 0x3c6ef372,
                  0xfa2a4622, 0x510e527f, 0x9b05688c, 0x1f83d9ab);
    NextRound(block, 1, v1, 0x71374491, 0x00000000);
    var v2 := Vars(0x5a6ad9ad, 0x5d6aebcd, 0x6a09e667, 0xbb67ae85,
                  0x78ce7989, 0xfa2a4622, 0x510e527f, 0x9b05688c);
    NextRound(block, 2, v2, 0xb5c0fbcf, 0x00000000);
    var v3 := Vars(0xc8c347a7, 0x5a6ad9ad, 0x5d6aebcd, 0x6a09e667,
                  0xf92939eb, 0x78ce7989, 0xfa2a4622, 0x510e527f);
    NextRound(block, 3, v3, 0xe9b5dba5, 0x00000000);
    var v4 := Vars(0xd550f666, 0xc8c347a7, 0x5a6ad9ad, 0x5d6aebcd,
                  0x24e00850, 0xf92939eb, 0x78ce7989, 0xfa2a4622);
    NextRound(block, 4, v4, 0x3956c25b, 0x00000000);
    var v5 := Vars(0x04409a6a, 0xd550f666, 0xc8c347a7, 0x5a6ad9ad,
                  0x43ada245, 0x24e00850, 0xf92939eb, 0x78ce7989);
    NextRound(block, 5, v5, 0x59f111f1, 0x00000000);
    var v6 := Vars(0x2b4209f5, 0x04409a6a, 0xd550f666, 0xc8c347a7,
                  0x714260ad, 0x43ada245, 0x24e00850, 0xf92939eb);
    NextRound(block, 6, v6, 0x923f82a4, 0x00000000);
    var v7 := Vars(0xe5030380, 0x2b4209f5, 0x04409a6a, 0xd550f666,
                  0x9b27a401, 0x714260ad, 0x43ada245, 0x24e00850);
    NextRound(block, 7, v7, 0xab1c5ed5, 0x00000000);
  }

  lemma Constants8()
    ensures RoundConstant(8) == 0xd807aa98 && RoundConstant(9) == 0x12835b01
    ensures RoundConstant(10) == 0x243185be && RoundConstant(11) == 0x550c7dc3
    ensures RoundConstant(12) == 0x72be5d74 && RoundConstant(13) == 0x80deb1fe
    ensures RoundConstant(14) == 0x9bdc06a7 && RoundConstant(15) == 0xc19bf174
  {
  }

  lemma Rounds16(block: seq<byte>)
    requires IsAbcBlock(block)
    ensures |H0| == 8 && |block| == 64 && Rounds(H0, block, 16) ==
            Vars(0xb0fa238e, 0xc0645fde, 0xd932eb16, 0x87912990,
                 0x07590dcd, 0x0b92f20c, 0x745a48de, 0x1e578218)
  {
    hide Rounds, RoundConstant, Schedule, H0, IsAbcBlock;
    BlockLength(block);
    Rounds8(block);
    Constants8();
    Words0(block);
    var v8 := Vars(0x85a07b5f, 0xe5030380, 0x2b4209f5, 0x04409a6a,
                  0x0c657a79, 0x9b27a401, 0x714260ad, 0x43ada245);
    NextRound(block, 8, v8, 0xd807aa98, 0x00000000);
    var v9 := Vars(0x8e04ecb9, 0x85a07b5f, 0xe5030380, 0x2b4209f5,
                  0x32ca2d8c, 0x0c657a79, 0x9b27a401, 0x714260ad);
    NextRound(block, 9, v9, 0x12835b01, 0x00000000);
    var v10 := Vars(0x8c87346b, 0x8e04ecb9, 0x85a07b5f, 0xe5030380,
                   0x1cc92596, 0x32ca2d8c, 0x0c657a79, 0x9b27a401);
    NextRound(block, 10, v10, 0x243185be, 0x00000000);
    var v11 := Vars(0x4798a3f4, 0x8c87346b, 0x8e04ecb9, 0x85a07b5f,
                   0x436b23e8, 0x1cc92596, 0x32ca2d8c, 0x0c657a79);
    NextRound(block, 11, v11, 0x550c7dc3, 0x00000000);
    var v12 := Vars(0xf71fc5a9, 0x4798a3f4, 0x8c87346b, 0x8e04ecb9,
                   0x816fd6e9, 0x436b23e8, 0x1cc92596, 0x32ca2d8c);
    NextRound(block, 12, v12, 0x72be5d74, 0x00000000);
    var v13 := Vars(0x87912990, 0xf71fc5a9, 0x4798a3f4, 0x8c87346b,
                   0x1e578218, 0x816fd6e9, 0x436b23e8, 0x1cc92596);
    NextRound(block, 13, v13, 0x80deb1fe, 0x00000000);
    var v14 := Vars(0xd932eb16, 0x87912990, 0xf71fc5a9, 0x4798a3f4,
                   0x745a48de, 0x1e578218, 0x816fd6e9, 0x436b23e8);
    NextRound(block, 14, v14, 0x9bdc06a7, 0x00000000);
    var v15 := Vars(0xc0645fde, 0xd932eb16, 0x87912990, 0xf71fc5a9,
                   0x0b92f20c, 0x745a48de, 0x1e578218, 0x816fd6e9);
    NextRound(block, 15, v15, 0xc19bf174, 0x00000018);
  }

  lemma Constants16()
    ensures RoundConstant(16) == 0xe49b69c1 && RoundConstant(17) == 0xefbe4786
    ensures RoundConstant(18) == 0x0fc19dc6 && RoundConstant(19) == 0x240ca1cc
    ensures RoundConstant(20) == 0x2de92c6f && RoundConstant(21) == 0x4a7484aa
    ensures RoundConstant(22) == 0x5cb0a9dc && RoundConstant(23) == 0x76f988da
  {
  }

  lemma Rounds24(block: seq<byte>)
    requires IsAbcBlock(block)
    ensures |H0| == 8 && |block| == 64 && Rounds(H0, block, 24) ==
            Vars(0xc5d53d8d, 0xa7a3623f, 0xc2606d6d, 0x9dc68b63,
                 0xaa47c347, 0x49f5114a, 0xe1257970, 0x8ada8930)
  {
    hide Rounds, RoundConstant, Schedule, H0, IsAbcBlock;
    BlockLength(block);
    Rounds16(block);
    Constants16();
    Words16(block);
    var v16 := Vars(0xb0fa238e, 0xc0645fde, 0xd932eb16, 0x87912990,
                   0x07590dcd, 0x0b92f20c, 0x745a48de, 0x1e578218);
    NextRound(block, 16, v16, 0xe49b69c1, 0x61626380);
    var v17 := Vars(0x21da9a9b, 0xb0fa238e, 0xc0645fde, 0xd932eb16,
                   0x8034229c, 0x07590dcd, 0x0b92f20c, 0x745a48de);
    NextRound(block, 17, v17, 0xefbe4786, 0x000f0000);
    var v18 := Vars(0xc2fbd9d1, 0x21da9a9b, 0xb0fa238e, 0xc0645fde,
                   0x846ee454, 0x8034229c, 0x07590dcd, 0x0b92f20c);
    NextRound(block, 18, v18, 0x0fc19dc6, 0x7da86405);
    var v19 := Vars(0xfe777bbf, 0xc2fbd9d1, 0x21da9a9b, 0xb0fa238e,
                   0xcc899961, 0x846ee454, 0x8034229c, 0x07590dcd);
    NextRound(block, 19, v19, 0x240ca1cc, 0x600003c6);
    var v20 := Vars(0xe1f20c33, 0xfe777bbf, 0xc2fbd9d1, 0x21da9a9b,
                   0xb0638179, 0xcc899961, 0x846ee454, 0x8034229c);
    NextRound(block, 20, v20, 0x2de92c6f, 0x3e9d7b78);
    var v21 := Vars(0x9dc68b63, 0xe1f20c33, 0xfe777bbf, 0xc2fbd9d1,
                   0x8ada8930, 0xb0638179, 0xcc899961, 0x846ee454);
    NextRound(block, 21, v21, 0x4a7484aa, 0x0183fc00);
    var v22 := Vars(0xc2606d6d, 0x9dc68b63, 0xe1f20c33, 0xfe777bbf,
                   0xe1257970, 0x8ada8930, 0xb0638179, 0xcc899961);
    NextRound(block, 22, v22, 0x5cb0a9dc, 0x12dcbfdb);
    var v23 := Vars(0xa7a3623f, 0xc2606d6d, 0x9dc68b63, 0xe1f20c33,
                   0x49f5114a, 0xe1257970, 0x8ada8930, 0xb0638179);
    NextRound(block, 23, v23, 0x76f988da, 0xe2e2c38e);
  }

  lemma Constants24()
    ensures RoundConstant(24) == 0x983e5152 && RoundConstant(25) == 0xa831c66d
    ensures RoundConstant(26) == 0xb00327c8 && RoundConstant(27) == 0xbf597fc7
    ensures RoundConstant(28) == 0xc6e00bf3 && RoundConstant(29) == 0xd5a79147
    ensures RoundConstant(30) == 0x06ca6351 && RoundConstant(31) == 0x14292967
  {
  }

  lemma Rounds32(block: seq<byte>)
    requires IsAbcBlock(block)
    ensures |H0| == 8 && |block| == 64 && Rounds(H0, block, 32) ==
            Vars(0x73b33bf5, 0xea992a22, 0xa0060b30, 0x363482c9,
                 0xba591112, 0x0109ab3a, 0xade79437, 0x6112a3b7)
  {
    hide Rounds, RoundConstant, Schedule, H0, IsAbcBlock;
    BlockLength(block);
    Rounds24(block);
    Constants24();
    Words24(block);
    var v24 := Vars(0xc5d53d8d, 0xa7a3623f, 0xc2606d6d, 0x9dc68b63,
                   0xaa47c347, 0x49f5114a, 0xe1257970, 0x8ada8930);
    NextRound(block, 24, v24, 0x983e5152, 0xc8215c1a);
    var v25 := Vars(0x1c2c2838, 0xc5d53d8d, 0xa7a3623f, 0xc2606d6d,
                   0x2823ef91, 0xaa47c347, 0x49f5114a, 0xe1257970);
    NextRound(block, 25, v25, 0xa831c66d, 0xb73679a2);
    var v26 := Vars(0xcde8037d, 0x1c2c2838, 0xc5d53d8d, 0xa7a3623f,
                   0x14383d8e, 0x2823ef91, 0xaa47c347, 0x49f5114a);
    NextRound(block, 26, v26, 0xb00327c8, 0xe5bc3909);
    var v27 := Vars(0xb62ec4bc, 0xcde8037d, 0x1c2c2838, 0xc5d53d8d,
                   0xc74c6516, 0x14383d8e, 0x2823ef91, 0xaa47c347);
    NextRound(block, 27, v27, 0xbf597fc7, 0x32663c5b);
    var v28 := Vars(0x77d37528, 0xb62ec4bc, 0xcde8037d, 0x1c2c2838,
                   0xedffbff8, 0xc74c6516, 0x14383d8e, 0x2823ef91);
    NextRound(block, 28, v28, 0xc6e00bf3, 0x9d209d67);
    var v29 := Vars(0x363482c9, 0x77d37528, 0xb62ec4bc, 0xcde8037d,
                   0x6112a3b7, 0xedffbff8, 0xc74c6516, 0x14383d8e);
    NextRound(block, 29, v29, 0xd5a79147, 0xec8726cb);
    var v30 := Vars(0xa0060b30, 0x363482c9, 0x77d37528, 0xb62ec4bc,
                   0xade79437, 0x6112a3b7, 0xedffbff8, 0xc74c6516);
    NextRound(block, 30, v30, 0x06ca6351, 0x702138a4);
    var v31 := Vars(0xea992a22, 0xa0060b30, 0x363482c9, 0x77d37528,
                   0x0109ab3a, 0xade79437, 0x6112a3b7, 0xedffbff8);
    NextRound(block, 31, v31, 0x14292967, 0xd3b7973b);
  }

  lemma Constants32()
    ensures RoundConstant(32) == 0x27b70a85 && RoundConstant(33) == 0x2e1b2138
    ensures RoundConstant(34) == 0x4d2c6dfc && RoundConstant(35) == 0x53380d13
    ensures RoundConstant(36) == 0x650a7354 && RoundConstant(37) == 0x766a0abb
    ensures RoundConstant(38) == 0x81c2c92e && RoundConstant(39) == 0x92722c85
  {
  }

  lemma Rounds40(block: seq<byte>)
    requires IsAbcBlock(block)
    ensures |H0| == 8 && |block| == 64 && Rounds(H0, block, 40) ==
            Vars(0x79ea687a, 0x6dc57a8a, 0x34df1604, 0x41a65cb1,
                 0x1efbc0a0, 0xf0781bc8, 0xa507a53d, 0x0772a26b)
  {
    hide Rounds, RoundConstant, Schedule, H0, IsAbcBlock;
    BlockLength(block);
    Rounds32(block);
    Constants32();
    Words32(block);
    var v32 := Vars(0x73b33bf5, 0xea992a22, 0xa0060b30, 0x363482c9,
                   0xba591112, 0x0109ab3a, 0xade79437, 0x6112a3b7);
    NextRound(block, 32, v32, 0x27b70a85, 0x93f5997f);
    var v33 := Vars(0x98e12507, 0x73b33bf5, 0xea992a22, 0xa0060b30,
                   0x9cd9f5f6, 0xba591112, 0x0109ab3a, 0xade79437);
    NextRound(block, 33, v33, 0x2e1b2138, 0x3b68ba73);
    var v34 := Vars(0xfe604df5, 0x98e12507, 0x73b33bf5, 0xea992a22,
                   0x59249dd3, 0x9cd9f5f6, 0xba591112, 0x0109ab3a);
    NextRound(block, 34, v34, 0x4d2c6dfc, 0xaff4ffc1);
    var v35 := Vars(0xa9a7738c, 0xfe604df5, 0x98e12507, 0x73b33bf5,
                   0x085f3833, 0x59249dd3, 0x9cd9f5f6, 0xba591112);
    NextRound(block, 35, v35, 0x53380d13, 0xf10a5c62);
    var v36 := Vars(0x65a0cfe4, 0xa9a7738c, 0xfe604df5, 0x98e12507,
                   0xf4b002d6, 0x085f3833, 0x59249dd3, 0x9cd9f5f6);
    NextRound(block, 36, v36, 0x650a7354, 0x0a8b3996);
    var v37 := Vars(0x41a65cb1, 0x65a0cfe4, 0xa9a7738c, 0xfe604df5,
                   0x0772a26b, 0xf4b002d6, 0x085f3833, 0x59249dd3);
    NextRound(block, 37, v37, 0x766a0abb, 0x72af830a);
    var v38 := Vars(0x34df1604, 0x41a65cb1, 0x65a0cfe4, 0xa9a7738c,
                   0xa507a53d, 0x0772a26b, 0xf4b002d6, 0x085f3833);
    NextRound(block, 38, v38, 0x81c2c92e, 0x9409e33e);
    var v39 := Vars(0x6dc57a8a, 0x34df1604, 0x41a65cb1, 0x65a0cfe4,
                   0xf0781bc8, 0xa507a53d, 0x0772a26b, 0xf4b002d6);
    NextRound(block, 39, v39, 0x92722c85, 0x24641522);
  }

  lemma Constants40()
    ensures RoundConstant(40) == 0xa2bfe8a1 && RoundConstant(41) == 0xa81a664b
    ensures RoundConstant(42) == 0xc24b8b70 && RoundConstant(43) == 0xc76c51a3
    ensures RoundConstant(44) == 0xd192e819 && RoundConstant(45) == 0xd6990624
    ensures RoundConstant(46) == 0xf40e3585 && RoundConstant(47) == 0x106aa070
  {
  }

  lemma Rounds48(block: seq<byte>)
    requires IsAbcBlock(block)
    ensures |H0| == 8 && |block| == 64 && Rounds(H0, block, 48) ==
            Vars(0x4172328d, 0xa14c14b0, 0x72ab4b91, 0x26628815,
                 0xfecf0bc6, 0xd57b94a9, 0xb7755da1, 0xa80f11f0)
  {
    hide Rounds, RoundConstant, Schedule, H0, IsAbcBlock;
    BlockLength(block);
    Rounds40(block);
    Constants40();
    Words40(block);
    var v40 := Vars(0x79ea687a, 0x6dc57a8a, 0x34df1604, 0x41a65cb1,
                   0x1efbc0a0, 0xf0781bc8, 0xa507a53d, 0x0772a26b);
    NextRound(block, 40, v40, 0xa2bfe8a1, 0x9f47bf94);
    var v41 := Vars(0xd6670766, 0x79ea687a, 0x6dc57a8a, 0x34df1604,
                   0x26352d63, 0x1efbc0a0, 0xf0781bc8, 0xa507a53d);
    NextRound(block, 41, v41, 0xa81a664b, 0xf0a64f5a);
    var v42 := Vars(0xdf46652f, 0xd6670766, 0x79ea687a, 0x6dc57a8a,
                   0x838b2711, 0x26352d63, 0x1efbc0a0, 0xf0781bc8);
    NextRound(block, 42, v42, 0xc24b8b70, 0x3e246a79);
    var v43 := Vars(0x17aa0dfe, 0xdf46652f, 0xd6670766, 0x79ea687a,
                   0xdecd4715, 0x838b2711, 0x26352d63, 0x1efbc0a0);
    NextRound(block, 43, v43, 0xc76c51a3, 0x27333ba3);
    var v44 := Vars(0x9d4baf93, 0x17aa0dfe, 0xdf46652f, 0xd6670766,
                   0xfda24c2e, 0xdecd4715, 0x838b2711, 0x26352d63);
    NextRound(block, 44, v44, 0xd192e819, 0x0c4763f2);
    var v45 := Vars(0x26628815, 0x9d4baf93, 0x17aa0dfe, 0xdf46652f,
                   0xa80f11f0, 0xfda24c2e, 0xdecd4715, 0x838b2711);
    NextRound(block, 45, v45, 0xd6990624, 0x840abf27);
    var v46 := Vars(0x72ab4b91, 0x26628815, 0x9d4baf93, 0x17aa0dfe,
                   0xb7755da1, 0xa80f11f0, 0xfda24c2e, 0xdecd4715);
    NextRound(block, 46, v46, 0xf40e3585, 0x7a290d5d);
    var v47 := Vars(0xa14c14b0, 0x72ab4b91, 0x26628815, 0x9d4baf93,
                   0xd57b94a9, 0xb7755da1, 0xa80f11f0, 0xfda24c2e);
    NextRound(block, 47, v47, 0x106aa070, 0x065c43da);
  }

  lemma Constants48()
    ensures RoundConstant(48) == 0x19a4c116 && RoundConstant(49) == 0x1e376c08
    ensures RoundConstant(50) == 0x2748774c && RoundConstant(51) == 0x34b0bcb5
    ensures RoundConstant(52) == 0x391c0cb3 && RoundConstant(53) == 0x4ed8aa4a
    ensures RoundConstant(54) == 0x5b9cca4f && RoundConstant(55) == 0x682e6ff3
  {
  }

  lemma Rounds56(block: seq<byte>)
    requires IsAbcBlock(block)
    ensures |H0| == 8 && |block| == 64 && Rounds(H0, block, 56) ==
            Vars(0x38cc9913, 0x3ec45cdb, 0xf5702fdb, 0x101fd28f,
                 0x54cb266b, 0xe50e1b4f, 0x9f4787c3, 0x529e7d00)
  {
    hide Rounds, RoundConstant, Schedule, H0, IsAbcBlock;
    BlockLength(block);
    Rounds48(block);
    Constants48();
    Words48(block);
    var v48 := Vars(0x4172328d, 0xa14c14b0, 0x72ab4b91, 0x26628815,
                   0xfecf0bc6, 0xd57b94a9, 0xb7755da1, 0xa80f11f0);
    NextRound(block, 48, v48, 0x19a4c116, 0xfb3e89cb);
    var v49 := Vars(0x05757ceb, 0x4172328d, 0xa14c14b0, 0x72ab4b91,
                   0xbd714038, 0xfecf0bc6, 0xd57b94a9, 0xb7755da1);
    NextRound(block, 49, v49, 0x1e376c08, 0xcc7617db);
    var v50 := Vars(0xf11bfaa8, 0x05757ceb, 0x4172328d, 0xa14c14b0,
                   0x6e5c390c, 0xbd714038, 0xfecf0bc6, 0xd57b94a9);
    NextRound(block, 50, v50, 0x2748774c, 0xb9e66c34);
    var v51 := Vars(0x7a0508a1, 0xf11bfaa8, 0x05757ceb, 0x4172328d,
                   0x52f1ccf7, 0x6e5c390c, 0xbd714038, 0xfecf0bc6);
    NextRound(block, 51, v51, 0x34b0bcb5, 0xa9993667);
    var v52 := Vars(0x886e7a22, 0x7a0508a1, 0xf11bfaa8, 0x05757ceb,
                   0x49231c1e, 0x52f1ccf7, 0x6e5c390c, 0xbd714038);
    NextRound(block, 52, v52, 0x391c0cb3, 0x84badedd);
    var v53 := Vars(0x101fd28f, 0x886e7a22, 0x7a0508a1, 0xf11bfaa8,
                   0x529e7d00, 0x49231c1e, 0x52f1ccf7, 0x6e5c390c);
    NextRound(block, 53, v53, 0x4ed8aa4a, 0xc21462bc);
    var v54 := Vars(0xf5702fdb, 0x101fd28f, 0x886e7a22, 0x7a0508a1,
                   0x9f4787c3, 0x529e7d00, 0x49231c1e, 0x52f1ccf7);
    NextRound(block, 54, v54, 0x5b9cca4f, 0x1487472c);
    var v55 := Vars(0x3ec45cdb, 0xf5702fdb, 0x101fd28f, 0x886e7a22,
                   0xe50e1b4f, 0x9f4787c3, 0x529e7d00, 0x49231c1e);
    NextRound(block, 55, v55, 0x682e6ff3, 0xb20f7a99);
  }

  lemma Constants56()
    ensures RoundConstant(56) == 0x748f82ee && RoundConstant(57) == 0x78a5636f
    ensures RoundConstant(58) == 0x84c87814 && RoundConstant(59) == 0x8cc70208
    ensures RoundConstant(60) == 0x90befffa && RoundConstant(61) == 0xa4506ceb
    ensures RoundConstant(62) == 0xbef9a3f7 && RoundConstant(63) == 0xc67178f2
  {
  }

  lemma Rounds64(block: seq<byte>)
    requires IsAbcBlock(block)
    ensures |H0| == 8 && |block| == 64 && Rounds(H0, block, 64) ==
            Vars(0x506e3058, 0xd39a2165, 0x04d24d6c, 0xb85e2ce9,
                 0x5ef50f24, 0xfb121210, 0x948d25b6, 0x961f4894)
  {
    hide Rounds, RoundConstant, Schedule, H0, IsAbcBlock;
    BlockLength(block);
    Rounds56(block);
    Constants56();
    Words56(block);
    var v56 := Vars(0x38cc9913, 0x3ec45cdb, 0xf5702fdb, 0x101fd28f,
                   0x54cb266b, 0xe50e1b4f, 0x9f4787c3, 0x529e7d00);
    NextRound(block, 56, v56, 0x748f82ee, 0xef57b9cd);
    var v57 := Vars(0xfcd1887b, 0x38cc9913, 0x3ec45cdb, 0xf5702fdb,
                   0x9b5e906c, 0x54cb266b, 0xe50e1b4f, 0x9f4787c3);
    NextRound(block, 57, v57, 0x78a5636f, 0xebe6b238);
    var v58 := Vars(0xc062d46f, 0xfcd1887b, 0x38cc9913, 0x3ec45cdb,
                   0x7e44008e, 0x9b5e906c, 0x54cb266b, 0xe50e1b4f);
    NextRound(block, 58, v58, 0x84c87814, 0x9fe3095e);
    var v59 := Vars(0xffb70472, 0xc062d46f, 0xfcd1887b, 0x38cc9913,
                   0x6d83bfc6, 0x7e44008e, 0x9b5e906c, 0x54cb266b);
    NextRound(block, 59, v59, 0x8cc70208, 0x78bc8d4b);
    var v60 := Vars(0xb6ae8fff, 0xffb70472, 0xc062d46f, 0xfcd1887b,
                   0xb21bad3d, 0x6d83bfc6, 0x7e44008e, 0x9b5e906c);
    NextRound(block, 60, v60, 0x90befffa, 0xa43fcf15);
    var v61 := Vars(0xb85e2ce9, 0xb6ae8fff, 0xffb70472, 0xc062d46f,
                   0x961f4894, 0xb21bad3d, 0x6d83bfc6, 0x7e44008e);
    NextRound(block, 61, v61, 0xa4506ceb, 0x668b2ff8);
    var v62 := Vars(0x04d24d6c, 0xb85e2ce9, 0xb6ae8fff, 0xffb70472,
                   0x948d25b6, 0x961f4894, 0xb21bad3d, 0x6d83bfc6);
    NextRound(block, 62, v62, 0xbef9a3f7, 0xeeaba2cc);
    var v63 := Vars(0xd39a2165, 0x04d24d6c, 0xb85e2ce9, 0xb6ae8fff,
                   0xfb121210, 0x948d25b6, 0x961f4894, 0xb21bad3d);
    NextRound(block, 63, v63, 0xc67178f2, 0x12b1edeb);
  }

  // ----- The digest -----

  lemma CompressAbc(block: seq<byte>)
    requires IsAbcBlock(block)
    ensures |H0| == 8 && |block| == 64
    ensures Compress(H0, block) == [0xba7816bf, 0x8f01cfea, 0x414140de, 0x5dae2223,
                                    0xb00361a3, 0x96177a9c, 0xb410ff61, 0xf20015ad]
  {
    hide Rounds;
    Rounds64(block);
  }

  lemma AbcWords()
    ensures WordBytes(0xba7816bf) == [0xba, 0x78, 0x16, 0xbf]
    ensures WordBytes(0x8f01cfea) == [0x8f, 0x01, 0xcf, 0xea]
    ensures WordBytes(0x414140de) == [0x41, 0x41, 0x40, 0xde]
    ensures WordBytes(0x5dae2223) == [0x5d, 0xae, 0x22, 0x23]
    ensures WordBytes(0xb00361a3) == [0xb0, 0x03, 0x61, 0xa3]
    ensures WordBytes(0x96177a9c) == [0x96, 0x17, 0x7a, 0x9c]
    ensures WordBytes(0xb410ff61) == [0xb4, 0x10, 0xff, 0x61]
    ensures WordBytes(0xf20015ad) == [0xf2, 0x00, 0x15, 0xad]
  {
  }

  lemma DigestOne(front: seq<bv32>, x: bv32)
    ensures Digest(front + [x]) == Digest(front) + WordBytes(x)
  {
    hide WordBytes;
    assert (front + [x])[..|front|] == front;
  }

  lemma DigestFour(front: seq<bv32>, a: bv32, b: bv32, c: bv32, d: bv32)
    ensures Digest(front + [a, b, c, d]) == Digest(front) + WordBytes(a) + WordBytes(b) + WordBytes(c) + WordBytes(d)
  {
    hide WordBytes, Digest;
    DigestOne(front, a);
    DigestOne(front + [a], b);
    DigestOne(front + [a] + [b], c);
    DigestOne(front + [a] + [b] + [c], d);
    assert front + [a] + [b] + [c] + [d] == front + [a, b, c, d];
  }

  lemma DigestNone()
    ensures Digest([]) == []
  {
  }

  lemma AbcFirst(first: seq<bv32>)
    requires first == [0xba7816bf, 0x8f01cfea, 0x414140de, 0x5dae2223]
    ensures Digest(first) ==
            [0xba, 0x78, 0x16, 0xbf, 0x8f, 0x01, 0xcf, 0xea, 0x41, 0x41, 0x40, 0xde, 0x5d, 0xae, 0x22, 0x23]
  {
    hide WordBytes, Digest;
    AbcWords();
    DigestNone();
    DigestFour([], first[0], first[1], first[2], first[3]);
    assert [] + [first[0], first[1], first[2], first[3]] == first;
  }

  lemma AbcBytes(first: seq<bv32>, s: seq<bv32>)
    requires first == [0xba7816bf, 0x8f01cfea, 0x414140de, 0x5dae2223]
    requires s == first + [0xb00361a3, 0x96177a9c, 0xb410ff61, 0xf20015ad]
    ensures Digest(s) ==
            [0xba, 0x78, 0x16, 0xbf, 0x8f, 0x01, 0xcf, 0xea, 0x41, 0x41, 0x40, 0xde, 0x5d, 0xae, 0x22, 0x23,
             0xb0, 0x03, 0x61, 0xa3, 0x96, 0x17, 0x7a, 0x9c, 0xb4, 0x10, 0xff, 0x61, 0xf2, 0x00, 0x15, 0xad]
  {
    hide WordBytes, Digest;
    AbcFirst(first);
    AbcWords();
    DigestFour(first, 0xb00361a3, 0x96177a9c, 0xb410ff61, 0xf20015ad);
  }

  /** The digest of "abc" is the one the standard gives. */
  lemma AbcDigest()
    ensures |Padded(ABC)| % 64 == 0 && |H0| == 8
    ensures Digest(Fold(H0, Padded(ABC))) ==
            [0xba, 0x78, 0x16, 0xbf, 0x8f, 0x01, 0xcf, 0xea, 0x41, 0x41, 0x40, 0xde, 0x5d, 0xae, 0x22, 0x23,
             0xb0, 0x03, 0x61, 0xa3, 0x96, 0x17, 0x7a, 0x9c, 0xb4, 0x10, 0xff, 0x61, 0xf2, 0x00, 0x15, 0xad]
  {
    hide Compress, WordBytes, Digest, H0, Padded;
    var block := Padded(ABC);
    PaddedAbc();
    CompressAbc(block);
    assert block[..64] == block && block[64..] == [];
    assert Fold(H0, block) == Fold(Compress(H0, block), []) == Compress(H0, block);
    var first: seq<bv32> := [0xba7816bf, 0x8f01cfea, 0x414140de, 0x5dae2223];
    assert Compress(H0, block) == first + [0xb00361a3, 0x96177a9c, 0xb410ff61, 0xf20015ad];
    AbcBytes(first, Compress(H0, block));
  }
}
