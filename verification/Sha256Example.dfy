/** What FIPS 180-4 fixes apart from its formulas: the origin of the constants, and the worked
    example, the message "abc", value by value: the words of its only block, the state after
    each round, and the digest. */
module Sha256Example {
  import opened Endian
  import opened Sha256

  const ABC: seq<octet> := [0x61, 0x62, 0x63]

  // ---------------------------------------------------------------- the padded message

  lemma {:induction false} DivSmall(a: nat, b: nat)
    requires a < b
    ensures a / b == 0
  {}

  lemma {:induction false} LengthBytes(k: nat)
    requires 0 < k
    ensures LengthByte(24, k) == 0
  {
    assert Pow256(k) == 256 * Pow256(k - 1);
    DivSmall(24, Pow256(k));
  }

  /** A 1 bit, zeros, and the length of 24 bits: one block. */
  lemma {:induction false} AbcPadded()
    ensures IsAbc(Pad(ABC)) && |Pad(ABC)| == 64
  {
    hide LengthByte;
    var f := LengthField(24);
    assert f[7] == 24 by { LastByte(); }
    forall i | 0 <= i < 7 ensures f[i] == 0 { LengthBytes(7 - i); }
    assert Pad(ABC) == ABC + [0x80] + Zeros(52) + f;
  }

  lemma {:induction false} LastByte()
    ensures LengthByte(24, 0) == 24
  {}

  ghost predicate IsAbc(b: seq<octet>) {
    |b| == 64 && b[0] == 0x61 && b[1] == 0x62 && b[2] == 0x63 && b[3] == 0x80 && b[63] == 24 &&
    forall i :: 4 <= i < 63 ==> b[i] == 0
  }

  // ---------------------------------------------------------------- the message schedule

  lemma {:induction false} FirstWords(b: seq<octet>)
    requires IsAbc(b)
    ensures Schedule(b, 0) == 0x61626380 && Schedule(b, 15) == 0x00000018
    ensures forall t :: 1 <= t < 15 ==> Schedule(b, t) == 0
  {}

  lemma {:induction false} WordsTo32(b: seq<octet>)
    requires IsAbc(b)
    ensures Schedule(b, 16) == 0x61626380 && Schedule(b, 17) == 0x000f0000 && Schedule(b, 18) == 0x7da86405
    ensures Schedule(b, 19) == 0x600003c6 && Schedule(b, 20) == 0x3e9d7b78 && Schedule(b, 21) == 0x0183fc00
    ensures Schedule(b, 22) == 0x12dcbfdb && Schedule(b, 23) == 0xe2e2c38e && Schedule(b, 24) == 0xc8215c1a
    ensures Schedule(b, 25) == 0xb73679a2 && Schedule(b, 26) == 0xe5bc3909 && Schedule(b, 27) == 0x32663c5b
    ensures Schedule(b, 28) == 0x9d209d67 && Schedule(b, 29) == 0xec8726cb && Schedule(b, 30) == 0x702138a4
    ensures Schedule(b, 31) == 0xd3b7973b
  {
    FirstWords(b);
    hide IsAbc, BlockWord;
  }

  lemma {:induction false} WordsTo48(b: seq<octet>)
    requires IsAbc(b)
    ensures Schedule(b, 32) == 0x93f5997f && Schedule(b, 33) == 0x3b68ba73 && Schedule(b, 34) == 0xaff4ffc1
    ensures Schedule(b, 35) == 0xf10a5c62 && Schedule(b, 36) == 0x0a8b3996 && Schedule(b, 37) == 0x72af830a
    ensures Schedule(b, 38) == 0x9409e33e && Schedule(b, 39) == 0x24641522 && Schedule(b, 40) == 0x9f47bf94
    ensures Schedule(b, 41) == 0xf0a64f5a && Schedule(b, 42) == 0x3e246a79 && Schedule(b, 43) == 0x27333ba3
    ensures Schedule(b, 44) == 0x0c4763f2 && Schedule(b, 45) == 0x840abf27 && Schedule(b, 46) == 0x7a290d5d
    ensures Schedule(b, 47) == 0x065c43da
  {
    FirstWords(b);
    WordsTo32(b);
    hide IsAbc, BlockWord;
  }

  lemma {:induction false} WordsTo64(b: seq<octet>)
    requires IsAbc(b)
    ensures Schedule(b, 48) == 0xfb3e89cb && Schedule(b, 49) == 0xcc7617db && Schedule(b, 50) == 0xb9e66c34
    ensures Schedule(b, 51) == 0xa9993667 && Schedule(b, 52) == 0x84badedd && Schedule(b, 53) == 0xc21462bc
    ensures Schedule(b, 54) == 0x1487472c && Schedule(b, 55) == 0xb20f7a99 && Schedule(b, 56) == 0xef57b9cd
    ensures Schedule(b, 57) == 0xebe6b238 && Schedule(b, 58) == 0x9fe3095e && Schedule(b, 59) == 0x78bc8d4b
    ensures Schedule(b, 60) == 0xa43fcf15 && Schedule(b, 61) == 0x668b2ff8 && Schedule(b, 62) == 0xeeaba2cc
    ensures Schedule(b, 63) == 0x12b1edeb
  {
    WordsTo32(b);
    WordsTo48(b);
    hide IsAbc, BlockWord;
  }

  // ---------------------------------------------------------------- the rounds

  ghost function Constant(n: nat): word
    requires n < 64
  {
    K[n]
  }

  lemma {:induction false} Constants0()
    ensures Constant(0) == 0x428a2f98 && Constant(1) == 0x71374491 && Constant(2) == 0xb5c0fbcf
    ensures Constant(3) == 0xe9b5dba5 && Constant(4) == 0x3956c25b && Constant(5) == 0x59f111f1
    ensures Constant(6) == 0x923f82a4 && Constant(7) == 0xab1c5ed5
  {}

  lemma {:induction false} Constants8()
    ensures Constant(8) == 0xd807aa98 && Constant(9) == 0x12835b01 && Constant(10) == 0x243185be
    ensures Constant(11) == 0x550c7dc3 && Constant(12) == 0x72be5d74 && Constant(13) == 0x80deb1fe
    ensures Constant(14) == 0x9bdc06a7 && Constant(15) == 0xc19bf174
  {}

  lemma {:induction false} Constants16()
    ensures Constant(16) == 0xe49b69c1 && Constant(17) == 0xefbe4786 && Constant(18) == 0x0fc19dc6
    ensures Constant(19) == 0x240ca1cc && Constant(20) == 0x2de92c6f && Constant(21) == 0x4a7484aa
    ensures Constant(22) == 0x5cb0a9dc && Constant(23) == 0x76f988da
  {}

  lemma {:induction false} Constants24()
    ensures Constant(24) == 0x983e5152 && Constant(25) == 0xa831c66d && Constant(26) == 0xb00327c8
    ensures Constant(27) == 0xbf597fc7 && Constant(28) == 0xc6e00bf3 && Constant(29) == 0xd5a79147
    ensures Constant(30) == 0x06ca6351 && Constant(31) == 0x14292967
  {}

  lemma {:induction false} Constants32()
    ensures Constant(32) == 0x27b70a85 && Constant(33) == 0x2e1b2138 && Constant(34) == 0x4d2c6dfc
    ensures Constant(35) == 0x53380d13 && Constant(36) == 0x650a7354 && Constant(37) == 0x766a0abb
    ensures Constant(38) == 0x81c2c92e && Constant(39) == 0x92722c85
  {}

  lemma {:induction false} Constants40()
    ensures Constant(40) == 0xa2bfe8a1 && Constant(41) == 0xa81a664b && Constant(42) == 0xc24b8b70
    ensures Constant(43) == 0xc76c51a3 && Constant(44) == 0xd192e819 && Constant(45) == 0xd6990624
    ensures Constant(46) == 0xf40e3585 && Constant(47) == 0x106aa070
  {}

  lemma {:induction false} Constants48()
    ensures Constant(48) == 0x19a4c116 && Constant(49) == 0x1e376c08 && Constant(50) == 0x2748774c
    ensures Constant(51) == 0x34b0bcb5 && Constant(52) == 0x391c0cb3 && Constant(53) == 0x4ed8aa4a
    ensures Constant(54) == 0x5b9cca4f && Constant(55) == 0x682e6ff3
  {}

  lemma {:induction false} Constants56()
    ensures Constant(56) == 0x748f82ee && Constant(57) == 0x78a5636f && Constant(58) == 0x84c87814
    ensures Constant(59) == 0x8cc70208 && Constant(60) == 0x90befffa && Constant(61) == 0xa4506ceb
    ensures Constant(62) == 0xbef9a3f7 && Constant(63) == 0xc67178f2
  {}

  /** Round n takes the state s to the one with a new first and fifth word. */
  lemma {:induction false} Next(b: seq<octet>, n: nat, s: Hash, k: word, w: word, a: word, e: word)
    requires |b| == 64 && n < 64 && Rounds(H0(), b, n) == s && Constant(n) == k && Schedule(b, n) == w
    requires Round(s, k, w) == Hash(a, s.a, s.b, s.c, e, s.e, s.f, s.g)
    ensures Rounds(H0(), b, n + 1) == Hash(a, s.a, s.b, s.c, e, s.e, s.f, s.g)
  {}

  lemma {:induction false} RoundsTo8(b: seq<octet>)
    requires IsAbc(b)
    ensures Rounds(H0(), b, 8) ==
      Hash(0x85a07b5f, 0xe5030380, 0x2b4209f5, 0x04409a6a, 0x0c657a79, 0x9b27a401, 0x714260ad, 0x43ada245)
  {
    Constants0();
    FirstWords(b);
    assert Rounds(H0(), b, 0) == H0();
    hide IsAbc, Schedule, Rounds, Constant;
    Next(b, 0, Hash(0x6a09e667, 0xbb67ae85, 0x3c6ef372, 0xa54ff53a, 0x510e527f, 0x9b05688c, 0x1f83d9ab, 0x5be0cd19),
      0x428a2f98, 0x61626380, 0x5d6aebcd, 0xfa2a4622);
    Next(b, 1, Hash(0x5d6aebcd, 0x6a09e667, 0xbb67ae85, 0x3c6ef372, 0xfa2a4622, 0x510e527f, 0x9b05688c, 0x1f83d9ab),
      0x71374491, 0x00000000, 0x5a6ad9ad, 0x78ce7989);
    Next(b, 2, Hash(0x5a6ad9ad, 0x5d6aebcd, 0x6a09e667, 0xbb67ae85, 0x78ce7989, 0xfa2a4622, 0x510e527f, 0x9b05688c),
      0xb5c0fbcf, 0x00000000, 0xc8c347a7, 0xf92939eb);
    Next(b, 3, Hash(0xc8c347a7, 0x5a6ad9ad, 0x5d6aebcd, 0x6a09e667, 0xf92939eb, 0x78ce7989, 0xfa2a4622, 0x510e527f),
      0xe9b5dba5, 0x00000000, 0xd550f666, 0x24e00850);
    Next(b, 4, Hash(0xd550f666, 0xc8c347a7, 0x5a6ad9ad, 0x5d6aebcd, 0x24e00850, 0xf92939eb, 0x78ce7989, 0xfa2a4622),
      0x3956c25b, 0x00000000, 0x04409a6a, 0x43ada245);
    Next(b, 5, Hash(0x04409a6a, 0xd550f666, 0xc8c347a7, 0x5a6ad9ad, 0x43ada245, 0x24e00850, 0xf92939eb, 0x78ce7989),
      0x59f111f1, 0x00000000, 0x2b4209f5, 0x714260ad);
    Next(b, 6, Hash(0x2b4209f5, 0x04409a6a, 0xd550f666, 0xc8c347a7, 0x714260ad, 0x43ada245, 0x24e00850, 0xf92939eb),
      0x923f82a4, 0x00000000, 0xe5030380, 0x9b27a401);
    Next(b, 7, Hash(0xe5030380, 0x2b4209f5, 0x04409a6a, 0xd550f666, 0x9b27a401, 0x714260ad, 0x43ada245, 0x24e00850),
      0xab1c5ed5, 0x00000000, 0x85a07b5f, 0x0c657a79);
  }

  lemma {:induction false} RoundsTo16(b: seq<octet>)
    requires IsAbc(b)
    ensures Rounds(H0(), b, 16) ==
      Hash(0xb0fa238e, 0xc0645fde, 0xd932eb16, 0x87912990, 0x07590dcd, 0x0b92f20c, 0x745a48de, 0x1e578218)
  {
    RoundsTo8(b);
    Constants8();
    FirstWords(b);
    hide IsAbc, Schedule, Rounds, Constant;
    Next(b, 8, Hash(0x85a07b5f, 0xe5030380, 0x2b4209f5, 0x04409a6a, 0x0c657a79, 0x9b27a401, 0x714260ad, 0x43ada245),
      0xd807aa98, 0x00000000, 0x8e04ecb9, 0x32ca2d8c);
    Next(b, 9, Hash(0x8e04ecb9, 0x85a07b5f, 0xe5030380, 0x2b4209f5, 0x32ca2d8c, 0x0c657a79, 0x9b27a401, 0x714260ad),
      0x12835b01, 0x00000000, 0x8c87346b, 0x1cc92596);
    Next(b, 10, Hash(0x8c87346b, 0x8e04ecb9, 0x85a07b5f, 0xe5030380, 0x1cc92596, 0x32ca2d8c, 0x0c657a79, 0x9b27a401),
      0x243185be, 0x00000000, 0x4798a3f4, 0x436b23e8);
    Next(b, 11, Hash(0x4798a3f4, 0x8c87346b, 0x8e04ecb9, 0x85a07b5f, 0x436b23e8, 0x1cc92596, 0x32ca2d8c, 0x0c657a79),
      0x550c7dc3, 0x00000000, 0xf71fc5a9, 0x816fd6e9);
    Next(b, 12, Hash(0xf71fc5a9, 0x4798a3f4, 0x8c87346b, 0x8e04ecb9, 0x816fd6e9, 0x436b23e8, 0x1cc92596, 0x32ca2d8c),
      0x72be5d74, 0x00000000, 0x87912990, 0x1e578218);
    Next(b, 13, Hash(0x87912990, 0xf71fc5a9, 0x4798a3f4, 0x8c87346b, 0x1e578218, 0x816fd6e9, 0x436b23e8, 0x1cc92596),
      0x80deb1fe, 0x00000000, 0xd932eb16, 0x745a48de);
    Next(b, 14, Hash(0xd932eb16, 0x87912990, 0xf71fc5a9, 0x4798a3f4, 0x745a48de, 0x1e578218, 0x816fd6e9, 0x436b23e8),
      0x9bdc06a7, 0x00000000, 0xc0645fde, 0x0b92f20c);
    Next(b, 15, Hash(0xc0645fde, 0xd932eb16, 0x87912990, 0xf71fc5a9, 0x0b92f20c, 0x745a48de, 0x1e578218, 0x816fd6e9),
      0xc19bf174, 0x00000018, 0xb0fa238e, 0x07590dcd);
  }

  lemma {:induction false} RoundsTo24(b: seq<octet>)
    requires IsAbc(b)
    ensures Rounds(H0(), b, 24) ==
      Hash(0xc5d53d8d, 0xa7a3623f, 0xc2606d6d, 0x9dc68b63, 0xaa47c347, 0x49f5114a, 0xe1257970, 0x8ada8930)
  {
    RoundsTo16(b);
    Constants16();
    WordsTo32(b);
    hide IsAbc, Schedule, Rounds, Constant;
    Next(b, 16, Hash(0xb0fa238e, 0xc0645fde, 0xd932eb16, 0x87912990, 0x07590dcd, 0x0b92f20c, 0x745a48de, 0x1e578218),
      0xe49b69c1, 0x61626380, 0x21da9a9b, 0x8034229c);
    Next(b, 17, Hash(0x21da9a9b, 0xb0fa238e, 0xc0645fde, 0xd932eb16, 0x8034229c, 0x07590dcd, 0x0b92f20c, 0x745a48de),
      0xefbe4786, 0x000f0000, 0xc2fbd9d1, 0x846ee454);
    Next(b, 18, Hash(0xc2fbd9d1, 0x21da9a9b, 0xb0fa238e, 0xc0645fde, 0x846ee454, 0x8034229c, 0x07590dcd, 0x0b92f20c),
      0x0fc19dc6, 0x7da86405, 0xfe777bbf, 0xcc899961);
    Next(b, 19, Hash(0xfe777bbf, 0xc2fbd9d1, 0x21da9a9b, 0xb0fa238e, 0xcc899961, 0x846ee454, 0x8034229c, 0x07590dcd),
      0x240ca1cc, 0x600003c6, 0xe1f20c33, 0xb0638179);
    Next(b, 20, Hash(0xe1f20c33, 0xfe777bbf, 0xc2fbd9d1, 0x21da9a9b, 0xb0638179, 0xcc899961, 0x846ee454, 0x8034229c),
      0x2de92c6f, 0x3e9d7b78, 0x9dc68b63, 0x8ada8930);
    Next(b, 21, Hash(0x9dc68b63, 0xe1f20c33, 0xfe777bbf, 0xc2fbd9d1, 0x8ada8930, 0xb0638179, 0xcc899961, 0x846ee454),
      0x4a7484aa, 0x0183fc00, 0xc2606d6d, 0xe1257970);
    Next(b, 22, Hash(0xc2606d6d, 0x9dc68b63, 0xe1f20c33, 0xfe777bbf, 0xe1257970, 0x8ada8930, 0xb0638179, 0xcc899961),
      0x5cb0a9dc, 0x12dcbfdb, 0xa7a3623f, 0x49f5114a);
    Next(b, 23, Hash(0xa7a3623f, 0xc2606d6d, 0x9dc68b63, 0xe1f20c33, 0x49f5114a, 0xe1257970, 0x8ada8930, 0xb0638179),
      0x76f988da, 0xe2e2c38e, 0xc5d53d8d, 0xaa47c347);
  }

  lemma {:induction false} RoundsTo32(b: seq<octet>)
    requires IsAbc(b)
    ensures Rounds(H0(), b, 32) ==
      Hash(0x73b33bf5, 0xea992a22, 0xa0060b30, 0x363482c9, 0xba591112, 0x0109ab3a, 0xade79437, 0x6112a3b7)
  {
    RoundsTo24(b);
    Constants24();
    WordsTo32(b);
    hide IsAbc, Schedule, Rounds, Constant;
    Next(b, 24, Hash(0xc5d53d8d, 0xa7a3623f, 0xc2606d6d, 0x9dc68b63, 0xaa47c347, 0x49f5114a, 0xe1257970, 0x8ada8930),
      0x983e5152, 0xc8215c1a, 0x1c2c2838, 0x2823ef91);
    Next(b, 25, Hash(0x1c2c2838, 0xc5d53d8d, 0xa7a3623f, 0xc2606d6d, 0x2823ef91, 0xaa47c347, 0x49f5114a, 0xe1257970),
      0xa831c66d, 0xb73679a2, 0xcde8037d, 0x14383d8e);
    Next(b, 26, Hash(0xcde8037d, 0x1c2c2838, 0xc5d53d8d, 0xa7a3623f, 0x14383d8e, 0x2823ef91, 0xaa47c347, 0x49f5114a),
      0xb00327c8, 0xe5bc3909, 0xb62ec4bc, 0xc74c6516);
    Next(b, 27, Hash(0xb62ec4bc, 0xcde8037d, 0x1c2c2838, 0xc5d53d8d, 0xc74c6516, 0x14383d8e, 0x2823ef91, 0xaa47c347),
      0xbf597fc7, 0x32663c5b, 0x77d37528, 0xedffbff8);
    Next(b, 28, Hash(0x77d37528, 0xb62ec4bc, 0xcde8037d, 0x1c2c2838, 0xedffbff8, 0xc74c6516, 0x14383d8e, 0x2823ef91),
      0xc6e00bf3, 0x9d209d67, 0x363482c9, 0x6112a3b7);
    Next(b, 29, Hash(0x363482c9, 0x77d37528, 0xb62ec4bc, 0xcde8037d, 0x6112a3b7, 0xedffbff8, 0xc74c6516, 0x14383d8e),
      0xd5a79147, 0xec8726cb, 0xa0060b30, 0xade79437);
    Next(b, 30, Hash(0xa0060b30, 0x363482c9, 0x77d37528, 0xb62ec4bc, 0xade79437, 0x6112a3b7, 0xedffbff8, 0xc74c6516),
      0x06ca6351, 0x702138a4, 0xea992a22, 0x0109ab3a);
    Next(b, 31, Hash(0xea992a22, 0xa0060b30, 0x363482c9, 0x77d37528, 0x0109ab3a, 0xade79437, 0x6112a3b7, 0xedffbff8),
      0x14292967, 0xd3b7973b, 0x73b33bf5, 0xba591112);
  }

  lemma {:induction false} RoundsTo40(b: seq<octet>)
    requires IsAbc(b)
    ensures Rounds(H0(), b, 40) ==
      Hash(0x79ea687a, 0x6dc57a8a, 0x34df1604, 0x41a65cb1, 0x1efbc0a0, 0xf0781bc8, 0xa507a53d, 0x0772a26b)
  {
    RoundsTo32(b);
    Constants32();
    WordsTo48(b);
    hide IsAbc, Schedule, Rounds, Constant;
    Next(b, 32, Hash(0x73b33bf5, 0xea992a22, 0xa0060b30, 0x363482c9, 0xba591112, 0x0109ab3a, 0xade79437, 0x6112a3b7),
      0x27b70a85, 0x93f5997f, 0x98e12507, 0x9cd9f5f6);
    Next(b, 33, Hash(0x98e12507, 0x73b33bf5, 0xea992a22, 0xa0060b30, 0x9cd9f5f6, 0xba591112, 0x0109ab3a, 0xade79437),
      0x2e1b2138, 0x3b68ba73, 0xfe604df5, 0x59249dd3);
    Next(b, 34, Hash(0xfe604df5, 0x98e12507, 0x73b33bf5, 0xea992a22, 0x59249dd3, 0x9cd9f5f6, 0xba591112, 0x0109ab3a),
      0x4d2c6dfc, 0xaff4ffc1, 0xa9a7738c, 0x085f3833);
    Next(b, 35, Hash(0xa9a7738c, 0xfe604df5, 0x98e12507, 0x73b33bf5, 0x085f3833, 0x59249dd3, 0x9cd9f5f6, 0xba591112),
      0x53380d13, 0xf10a5c62, 0x65a0cfe4, 0xf4b002d6);
    Next(b, 36, Hash(0x65a0cfe4, 0xa9a7738c, 0xfe604df5, 0x98e12507, 0xf4b002d6, 0x085f3833, 0x59249dd3, 0x9cd9f5f6),
      0x650a7354, 0x0a8b3996, 0x41a65cb1, 0x0772a26b);
    Next(b, 37, Hash(0x41a65cb1, 0x65a0cfe4, 0xa9a7738c, 0xfe604df5, 0x0772a26b, 0xf4b002d6, 0x085f3833, 0x59249dd3),
      0x766a0abb, 0x72af830a, 0x34df1604, 0xa507a53d);
    Next(b, 38, Hash(0x34df1604, 0x41a65cb1, 0x65a0cfe4, 0xa9a7738c, 0xa507a53d, 0x0772a26b, 0xf4b002d6, 0x085f3833),
      0x81c2c92e, 0x9409e33e, 0x6dc57a8a, 0xf0781bc8);
    Next(b, 39, Hash(0x6dc57a8a, 0x34df1604, 0x41a65cb1, 0x65a0cfe4, 0xf0781bc8, 0xa507a53d, 0x0772a26b, 0xf4b002d6),
      0x92722c85, 0x24641522, 0x79ea687a, 0x1efbc0a0);
  }

  lemma {:induction false} RoundsTo48(b: seq<octet>)
    requires IsAbc(b)
    ensures Rounds(H0(), b, 48) ==
      Hash(0x4172328d, 0xa14c14b0, 0x72ab4b91, 0x26628815, 0xfecf0bc6, 0xd57b94a9, 0xb7755da1, 0xa80f11f0)
  {
    RoundsTo40(b);
    Constants40();
    WordsTo48(b);
    hide IsAbc, Schedule, Rounds, Constant;
    Next(b, 40, Hash(0x79ea687a, 0x6dc57a8a, 0x34df1604, 0x41a65cb1, 0x1efbc0a0, 0xf0781bc8, 0xa507a53d, 0x0772a26b),
      0xa2bfe8a1, 0x9f47bf94, 0xd6670766, 0x26352d63);
    Next(b, 41, Hash(0xd6670766, 0x79ea687a, 0x6dc57a8a, 0x34df1604, 0x26352d63, 0x1efbc0a0, 0xf0781bc8, 0xa507a53d),
      0xa81a664b, 0xf0a64f5a, 0xdf46652f, 0x838b2711);
    Next(b, 42, Hash(0xdf46652f, 0xd6670766, 0x79ea687a, 0x6dc57a8a, 0x838b2711, 0x26352d63, 0x1efbc0a0, 0xf0781bc8),
      0xc24b8b70, 0x3e246a79, 0x17aa0dfe, 0xdecd4715);
    Next(b, 43, Hash(0x17aa0dfe, 0xdf46652f, 0xd6670766, 0x79ea687a, 0xdecd4715, 0x838b2711, 0x26352d63, 0x1efbc0a0),
      0xc76c51a3, 0x27333ba3, 0x9d4baf93, 0xfda24c2e);
    Next(b, 44, Hash(0x9d4baf93, 0x17aa0dfe, 0xdf46652f, 0xd6670766, 0xfda24c2e, 0xdecd4715, 0x838b2711, 0x26352d63),
      0xd192e819, 0x0c4763f2, 0x26628815, 0xa80f11f0);
    Next(b, 45, Hash(0x26628815, 0x9d4baf93, 0x17aa0dfe, 0xdf46652f, 0xa80f11f0, 0xfda24c2e, 0xdecd4715, 0x838b2711),
      0xd6990624, 0x840abf27, 0x72ab4b91, 0xb7755da1);
    Next(b, 46, Hash(0x72ab4b91, 0x26628815, 0x9d4baf93, 0x17aa0dfe, 0xb7755da1, 0xa80f11f0, 0xfda24c2e, 0xdecd4715),
      0xf40e3585, 0x7a290d5d, 0xa14c14b0, 0xd57b94a9);
    Next(b, 47, Hash(0xa14c14b0, 0x72ab4b91, 0x26628815, 0x9d4baf93, 0xd57b94a9, 0xb7755da1, 0xa80f11f0, 0xfda24c2e),
      0x106aa070, 0x065c43da, 0x4172328d, 0xfecf0bc6);
  }

  lemma {:induction false} RoundsTo56(b: seq<octet>)
    requires IsAbc(b)
    ensures Rounds(H0(), b, 56) ==
      Hash(0x38cc9913, 0x3ec45cdb, 0xf5702fdb, 0x101fd28f, 0x54cb266b, 0xe50e1b4f, 0x9f4787c3, 0x529e7d00)
  {
    RoundsTo48(b);
    Constants48();
    WordsTo64(b);
    hide IsAbc, Schedule, Rounds, Constant;
    Next(b, 48, Hash(0x4172328d, 0xa14c14b0, 0x72ab4b91, 0x26628815, 0xfecf0bc6, 0xd57b94a9, 0xb7755da1, 0xa80f11f0),
      0x19a4c116, 0xfb3e89cb, 0x05757ceb, 0xbd714038);
    Next(b, 49, Hash(0x05757ceb, 0x4172328d, 0xa14c14b0, 0x72ab4b91, 0xbd714038, 0xfecf0bc6, 0xd57b94a9, 0xb7755da1),
      0x1e376c08, 0xcc7617db, 0xf11bfaa8, 0x6e5c390c);
    Next(b, 50, Hash(0xf11bfaa8, 0x05757ceb, 0x4172328d, 0xa14c14b0, 0x6e5c390c, 0xbd714038, 0xfecf0bc6, 0xd57b94a9),
      0x2748774c, 0xb9e66c34, 0x7a0508a1, 0x52f1ccf7);
    Next(b, 51, Hash(0x7a0508a1, 0xf11bfaa8, 0x05757ceb, 0x4172328d, 0x52f1ccf7, 0x6e5c390c, 0xbd714038, 0xfecf0bc6),
      0x34b0bcb5, 0xa9993667, 0x886e7a22, 0x49231c1e);
    Next(b, 52, Hash(0x886e7a22, 0x7a0508a1, 0xf11bfaa8, 0x05757ceb, 0x49231c1e, 0x52f1ccf7, 0x6e5c390c, 0xbd714038),
      0x391c0cb3, 0x84badedd, 0x101fd28f, 0x529e7d00);
    Next(b, 53, Hash(0x101fd28f, 0x886e7a22, 0x7a0508a1, 0xf11bfaa8, 0x529e7d00, 0x49231c1e, 0x52f1ccf7, 0x6e5c390c),
      0x4ed8aa4a, 0xc21462bc, 0xf5702fdb, 0x9f4787c3);
    Next(b, 54, Hash(0xf5702fdb, 0x101fd28f, 0x886e7a22, 0x7a0508a1, 0x9f4787c3, 0x529e7d00, 0x49231c1e, 0x52f1ccf7),
      0x5b9cca4f, 0x1487472c, 0x3ec45cdb, 0xe50e1b4f);
    Next(b, 55, Hash(0x3ec45cdb, 0xf5702fdb, 0x101fd28f, 0x886e7a22, 0xe50e1b4f, 0x9f4787c3, 0x529e7d00, 0x49231c1e),
      0x682e6ff3, 0xb20f7a99, 0x38cc9913, 0x54cb266b);
  }

  lemma {:induction false} RoundsTo64(b: seq<octet>)
    requires IsAbc(b)
    ensures Rounds(H0(), b, 64) ==
      Hash(0x506e3058, 0xd39a2165, 0x04d24d6c, 0xb85e2ce9, 0x5ef50f24, 0xfb121210, 0x948d25b6, 0x961f4894)
  {
    RoundsTo56(b);
    Constants56();
    WordsTo64(b);
    hide IsAbc, Schedule, Rounds, Constant;
    Next(b, 56, Hash(0x38cc9913, 0x3ec45cdb, 0xf5702fdb, 0x101fd28f, 0x54cb266b, 0xe50e1b4f, 0x9f4787c3, 0x529e7d00),
      0x748f82ee, 0xef57b9cd, 0xfcd1887b, 0x9b5e906c);
    Next(b, 57, Hash(0xfcd1887b, 0x38cc9913, 0x3ec45cdb, 0xf5702fdb, 0x9b5e906c, 0x54cb266b, 0xe50e1b4f, 0x9f4787c3),
      0x78a5636f, 0xebe6b238, 0xc062d46f, 0x7e44008e);
    Next(b, 58, Hash(0xc062d46f, 0xfcd1887b, 0x38cc9913, 0x3ec45cdb, 0x7e44008e, 0x9b5e906c, 0x54cb266b, 0xe50e1b4f),
      0x84c87814, 0x9fe3095e, 0xffb70472, 0x6d83bfc6);
    Next(b, 59, Hash(0xffb70472, 0xc062d46f, 0xfcd1887b, 0x38cc9913, 0x6d83bfc6, 0x7e44008e, 0x9b5e906c, 0x54cb266b),
      0x8cc70208, 0x78bc8d4b, 0xb6ae8fff, 0xb21bad3d);
    Next(b, 60, Hash(0xb6ae8fff, 0xffb70472, 0xc062d46f, 0xfcd1887b, 0xb21bad3d, 0x6d83bfc6, 0x7e44008e, 0x9b5e906c),
      0x90befffa, 0xa43fcf15, 0xb85e2ce9, 0x961f4894);
    Next(b, 61, Hash(0xb85e2ce9, 0xb6ae8fff, 0xffb70472, 0xc062d46f, 0x961f4894, 0xb21bad3d, 0x6d83bfc6, 0x7e44008e),
      0xa4506ceb, 0x668b2ff8, 0x04d24d6c, 0x948d25b6);
    Next(b, 62, Hash(0x04d24d6c, 0xb85e2ce9, 0xb6ae8fff, 0xffb70472, 0x948d25b6, 0x961f4894, 0xb21bad3d, 0x6d83bfc6),
      0xbef9a3f7, 0xeeaba2cc, 0xd39a2165, 0xfb121210);
    Next(b, 63, Hash(0xd39a2165, 0x04d24d6c, 0xb85e2ce9, 0xb6ae8fff, 0xfb121210, 0x948d25b6, 0x961f4894, 0xb21bad3d),
      0xc67178f2, 0x12b1edeb, 0x506e3058, 0x5ef50f24);
  }

  // ---------------------------------------------------------------- where the constants come from

  ghost predicate CubeRootBits(p: nat, c: nat, k: nat) {
    var v := c * 0x1_0000_0000 + k;
    k < 0x1_0000_0000 && v * v * v <= p * 0x1_0000_0000_0000_0000_0000_0000 < (v + 1) * (v + 1) * (v + 1)
  }

  /** Section 4.2.2: round constant n holds the first 32 bits of the fractional part of the cube
      root of the prime p; c is the integral part. */
  ghost predicate FromCubeRoot(n: nat, p: nat, c: nat)
    requires n < 64
  {
    CubeRootBits(p, c, Constant(n) as int)
  }

  ghost predicate SquareRootBits(p: nat, c: nat, k: nat) {
    var v := c * 0x1_0000_0000 + k;
    k < 0x1_0000_0000 && v * v <= p * 0x1_0000_0000_0000_0000 < (v + 1) * (v + 1)
  }

  /** Section 5.3.3: the same with square roots. */
  ghost predicate FromSquareRoot(i: nat, p: nat, c: nat)
    requires i < 8
  {
    SquareRootBits(p, c, Word(H0(), i) as int)
  }

  lemma {:induction false} SquareRoots0()
    ensures FromSquareRoot(0, 2, 1) && FromSquareRoot(1, 3, 1) && FromSquareRoot(2, 5, 2) && FromSquareRoot(3, 7, 2)
  {}

  lemma {:induction false} SquareRoots4()
    ensures FromSquareRoot(4, 11, 3) && FromSquareRoot(5, 13, 3) && FromSquareRoot(6, 17, 4) && FromSquareRoot(7, 19, 4)
  {}

  lemma {:induction false} CubeRoots0()
    ensures FromCubeRoot(0, 2, 1) && FromCubeRoot(1, 3, 1) && FromCubeRoot(2, 5, 1) && FromCubeRoot(3, 7, 1)
    ensures FromCubeRoot(4, 11, 2) && FromCubeRoot(5, 13, 2) && FromCubeRoot(6, 17, 2) && FromCubeRoot(7, 19, 2)
  {
    Constants0();
    hide Constant;
  }

  lemma {:induction false} CubeRoots8()
    ensures FromCubeRoot(8, 23, 2) && FromCubeRoot(9, 29, 3) && FromCubeRoot(10, 31, 3) && FromCubeRoot(11, 37, 3)
    ensures FromCubeRoot(12, 41, 3) && FromCubeRoot(13, 43, 3) && FromCubeRoot(14, 47, 3) && FromCubeRoot(15, 53, 3)
  {
    Constants8();
    hide Constant;
  }

  lemma {:induction false} CubeRoots16()
    ensures FromCubeRoot(16, 59, 3) && FromCubeRoot(17, 61, 3) && FromCubeRoot(18, 67, 4) && FromCubeRoot(19, 71, 4)
    ensures FromCubeRoot(20, 73, 4) && FromCubeRoot(21, 79, 4) && FromCubeRoot(22, 83, 4) && FromCubeRoot(23, 89, 4)
  {
    Constants16();
    hide Constant;
  }

  lemma {:induction false} CubeRoots24()
    ensures FromCubeRoot(24, 97, 4) && FromCubeRoot(25, 101, 4) && FromCubeRoot(26, 103, 4) && FromCubeRoot(27, 107, 4)
    ensures FromCubeRoot(28, 109, 4) && FromCubeRoot(29, 113, 4) && FromCubeRoot(30, 127, 5) && FromCubeRoot(31, 131, 5)
  {
    Constants24();
    hide Constant;
  }

  lemma {:induction false} CubeRoots32()
    ensures FromCubeRoot(32, 137, 5) && FromCubeRoot(33, 139, 5) && FromCubeRoot(34, 149, 5) && FromCubeRoot(35, 151, 5)
    ensures FromCubeRoot(36, 157, 5) && FromCubeRoot(37, 163, 5) && FromCubeRoot(38, 167, 5) && FromCubeRoot(39, 173, 5)
  {
    Constants32();
    hide Constant;
  }

  lemma {:induction false} CubeRoots40()
    ensures FromCubeRoot(40, 179, 5) && FromCubeRoot(41, 181, 5) && FromCubeRoot(42, 191, 5) && FromCubeRoot(43, 193, 5)
    ensures FromCubeRoot(44, 197, 5) && FromCubeRoot(45, 199, 5) && FromCubeRoot(46, 211, 5) && FromCubeRoot(47, 223, 6)
  {
    Constants40();
    hide Constant;
  }

  lemma {:induction false} CubeRoots48()
    ensures FromCubeRoot(48, 227, 6) && FromCubeRoot(49, 229, 6) && FromCubeRoot(50, 233, 6) && FromCubeRoot(51, 239, 6)
    ensures FromCubeRoot(52, 241, 6) && FromCubeRoot(53, 251, 6) && FromCubeRoot(54, 257, 6) && FromCubeRoot(55, 263, 6)
  {
    Constants48();
    hide Constant;
  }

  lemma {:induction false} CubeRoots56()
    ensures FromCubeRoot(56, 269, 6) && FromCubeRoot(57, 271, 6) && FromCubeRoot(58, 277, 6) && FromCubeRoot(59, 281, 6)
    ensures FromCubeRoot(60, 283, 6) && FromCubeRoot(61, 293, 6) && FromCubeRoot(62, 307, 6) && FromCubeRoot(63, 311, 6)
  {
    Constants56();
    hide Constant;
  }

  // ---------------------------------------------------------------- the digest

  lemma {:induction false} AbcAbsorbed()
    ensures Absorb(Pad(ABC)) ==
            Hash(0xba7816bf, 0x8f01cfea, 0x414140de, 0x5dae2223, 0xb00361a3, 0x96177a9c, 0xb410ff61, 0xf20015ad)
  {
    AbcPadded();
    var b := Pad(ABC);
    RoundsTo64(b);
    hide IsAbc, Rounds, Pad;
    assert b[..0] == [] && b[0..] == b;
    assert Absorb(b) == Compress(Absorb(b[..0]), b[0..]);
  }

  lemma {:induction false} AbcWords()
    ensures WordBytes(0xba7816bf) == [0xba, 0x78, 0x16, 0xbf]
    ensures WordBytes(0x8f01cfea) == [0x8f, 0x01, 0xcf, 0xea]
    ensures WordBytes(0x414140de) == [0x41, 0x41, 0x40, 0xde]
    ensures WordBytes(0x5dae2223) == [0x5d, 0xae, 0x22, 0x23]
    ensures WordBytes(0xb00361a3) == [0xb0, 0x03, 0x61, 0xa3]
    ensures WordBytes(0x96177a9c) == [0x96, 0x17, 0x7a, 0x9c]
    ensures WordBytes(0xb410ff61) == [0xb4, 0x10, 0xff, 0x61]
    ensures WordBytes(0xf20015ad) == [0xf2, 0x00, 0x15, 0xad]
  {}

  lemma {:induction false} DigestWords(s: Hash)
    ensures HashBytes(s) == WordBytes(s.a) + WordBytes(s.b) + WordBytes(s.c) + WordBytes(s.d) +
                            WordBytes(s.e) + WordBytes(s.f) + WordBytes(s.g) + WordBytes(s.h)
  {
    hide WordByte, WordBytes, HashBytes;
    FirstHalf(s);
    SecondHalf(s);
    assert HashBytes(s)[..32] == HashBytes(s);
  }

  lemma {:induction false} FirstHalf(s: Hash)
    ensures HashBytes(s)[..16] == WordBytes(s.a) + WordBytes(s.b) + WordBytes(s.c) + WordBytes(s.d)
  {
    hide WordByte, WordBytes, HashBytes;
    assert HashBytes(s)[..0] == [];
    HashBytesGrow(s, 0);
    HashBytesGrow(s, 1);
    HashBytesGrow(s, 2);
    HashBytesGrow(s, 3);
  }

  lemma {:induction false} SecondHalf(s: Hash)
    ensures HashBytes(s)[..32] == HashBytes(s)[..16] + WordBytes(s.e) + WordBytes(s.f) +
                                  WordBytes(s.g) + WordBytes(s.h)
  {
    hide WordByte, WordBytes, HashBytes;
    HashBytesGrow(s, 4);
    HashBytesGrow(s, 5);
    HashBytesGrow(s, 6);
    HashBytesGrow(s, 7);
  }

  /** The digest of the example. */
  lemma {:induction false} AbcDigest()
    ensures Digest(ABC) ==
      [0xba, 0x78, 0x16, 0xbf] + [0x8f, 0x01, 0xcf, 0xea] + [0x41, 0x41, 0x40, 0xde] + [0x5d, 0xae, 0x22, 0x23] +
      [0xb0, 0x03, 0x61, 0xa3] + [0x96, 0x17, 0x7a, 0x9c] + [0xb4, 0x10, 0xff, 0x61] + [0xf2, 0x00, 0x15, 0xad]
  {
    AbcAbsorbed();
    AbcWords();
    DigestWords(Absorb(Pad(ABC)));
    hide Absorb, Pad, WordBytes, HashBytes;
  }
}
