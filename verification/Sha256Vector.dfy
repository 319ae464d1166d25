/** The example FIPS 180-4 is published with: the digest of "abc", worked out from the definition. */
module Sha256Vector {
  import opened Sha256Spec

  const ABC: seq<bv8> := [0x61, 0x62, 0x63]

  /** The only block of the padded message, which ends in its 24 bits. */
  const BLOCK: seq<bv8> := ABC + [0x80] + Zeros(59) + [24]

  lemma {:induction false} BytesOfZero(count: nat)
    ensures BigEndian(0, count) == Zeros(count)
  {
    if count > 0 {
      BytesOfZero(count - 1);
      assert Zeros(count) == Zeros(count - 1) + [0];
    }
  }

  lemma PaddedAbc()
    ensures Pad(ABC) == BLOCK
  {
    assert ZeroBytes(3) == 52;
    BytesOfZero(7);
    assert BigEndian(24, 8) == BigEndian(0, 7) + [24 as bv8];
    assert Zeros(52) + Zeros(7) == Zeros(59);
    assert Pad(ABC) == ABC + [0x80] + (Zeros(52) + Zeros(7)) + [24];
  }

  /** Word `t` of the message schedule. */
  function W(t: nat): Word
    requires t < 64
  {
    Schedule(BLOCK, t)
  }

  lemma MessageWord(t: nat)
    requires t < 16
    ensures W(t) == if t == 0 then 0x61626380 else if t == 15 then 24 else 0
  {
  }

  lemma NextWord(t: nat, a: Word, b: Word, c: Word, d: Word)
    requires 16 <= t < 64 && W(t - 2) == a && W(t - 7) == b && W(t - 15) == c && W(t - 16) == d
    ensures W(t) == Sum(Sum(Sum(SmallSigma1(a), b), SmallSigma0(c)), d)
  {
    hide Sum, SmallSigma0, SmallSigma1, WordAt;
  }

  lemma Words0()
    ensures W(0) == 0x61626380 && W(1) == 0x00000000 && W(2) == 0x00000000 && W(3) == 0x00000000
    ensures W(4) == 0x00000000 && W(5) == 0x00000000 && W(6) == 0x00000000 && W(7) == 0x00000000
  {
    forall t | 0 <= t < 8 ensures W(t) == if t == 0 then 0x61626380 else if t == 15 then 24 else 0 {
      MessageWord(t);
    }
    hide W;
  }

  lemma Words1()
    ensures W(8) == 0x00000000 && W(9) == 0x00000000 && W(10) == 0x00000000 && W(11) == 0x00000000
    ensures W(12) == 0x00000000 && W(13) == 0x00000000 && W(14) == 0x00000000 && W(15) == 0x00000018
  {
    forall t | 8 <= t < 16 ensures W(t) == if t == 0 then 0x61626380 else if t == 15 then 24 else 0 {
      MessageWord(t);
    }
    hide W;
  }

  lemma Words2()
    ensures W(16) == 0x61626380 && W(17) == 0x000f0000 && W(18) == 0x7da86405 && W(19) == 0x600003c6
    ensures W(20) == 0x3e9d7b78 && W(21) == 0x0183fc00 && W(22) == 0x12dcbfdb && W(23) == 0xe2e2c38e
  {
    Words0();
    Words1();
    hide W;
    NextWord(16, 0x00000000, 0x00000000, 0x00000000, 0x61626380);
    NextWord(17, 0x00000018, 0x00000000, 0x00000000, 0x00000000);
    NextWord(18, 0x61626380, 0x00000000, 0x00000000, 0x00000000);
    NextWord(19, 0x000f0000, 0x00000000, 0x00000000, 0x00000000);
    NextWord(20, 0x7da86405, 0x00000000, 0x00000000, 0x00000000);
    NextWord(21, 0x600003c6, 0x00000000, 0x00000000, 0x00000000);
    NextWord(22, 0x3e9d7b78, 0x00000018, 0x00000000, 0x00000000);
    NextWord(23, 0x0183fc00, 0x61626380, 0x00000000, 0x00000000);
  }

  lemma Words3()
    ensures W(24) == 0xc8215c1a && W(25) == 0xb73679a2 && W(26) == 0xe5bc3909 && W(27) == 0x32663c5b
    ensures W(28) == 0x9d209d67 && W(29) == 0xec8726cb && W(30) == 0x702138a4 && W(31) == 0xd3b7973b
  {
    Words1();
    Words2();
    hide W;
    NextWord(24, 0x12dcbfdb, 0x000f0000, 0x00000000, 0x00000000);
    NextWord(25, 0xe2e2c38e, 0x7da86405, 0x00000000, 0x00000000);
    NextWord(26, 0xc8215c1a, 0x600003c6, 0x00000000, 0x00000000);
    NextWord(27, 0xb73679a2, 0x3e9d7b78, 0x00000000, 0x00000000);
    NextWord(28, 0xe5bc3909, 0x0183fc00, 0x00000000, 0x00000000);
    NextWord(29, 0x32663c5b, 0x12dcbfdb, 0x00000000, 0x00000000);
    NextWord(30, 0x9d209d67, 0xe2e2c38e, 0x00000018, 0x00000000);
    NextWord(31, 0xec8726cb, 0xc8215c1a, 0x61626380, 0x00000018);
  }

  lemma Words4()
    ensures W(32) == 0x93f5997f && W(33) == 0x3b68ba73 && W(34) == 0xaff4ffc1 && W(35) == 0xf10a5c62
    ensures W(36) == 0x0a8b3996 && W(37) == 0x72af830a && W(38) == 0x9409e33e && W(39) == 0x24641522
  {
    Words2();
    Words3();
    hide W;
    NextWord(32, 0x702138a4, 0xb73679a2, 0x000f0000, 0x61626380);
    NextWord(33, 0xd3b7973b, 0xe5bc3909, 0x7da86405, 0x000f0000);
    NextWord(34, 0x93f5997f, 0x32663c5b, 0x600003c6, 0x7da86405);
    NextWord(35, 0x3b68ba73, 0x9d209d67, 0x3e9d7b78, 0x600003c6);
    NextWord(36, 0xaff4ffc1, 0xec8726cb, 0x0183fc00, 0x3e9d7b78);
    NextWord(37, 0xf10a5c62, 0x702138a4, 0x12dcbfdb, 0x0183fc00);
    NextWord(38, 0x0a8b3996, 0xd3b7973b, 0xe2e2c38e, 0x12dcbfdb);
    NextWord(39, 0x72af830a, 0x93f5997f, 0xc8215c1a, 0xe2e2c38e);
  }

  lemma Words5()
    ensures W(40) == 0x9f47bf94 && W(41) == 0xf0a64f5a && W(42) == 0x3e246a79 && W(43) == 0x27333ba3
    ensures W(44) == 0x0c4763f2 && W(45) == 0x840abf27 && W(46) == 0x7a290d5d && W(47) == 0x065c43da
  {
    Words3();
    Words4();
    hide W;
    NextWord(40, 0x9409e33e, 0x3b68ba73, 0xb73679a2, 0xc8215c1a);
    NextWord(41, 0x24641522, 0xaff4ffc1, 0xe5bc3909, 0xb73679a2);
    NextWord(42, 0x9f47bf94, 0xf10a5c62, 0x32663c5b, 0xe5bc3909);
    NextWord(43, 0xf0a64f5a, 0x0a8b3996, 0x9d209d67, 0x32663c5b);
    NextWord(44, 0x3e246a79, 0x72af830a, 0xec8726cb, 0x9d209d67);
    NextWord(45, 0x27333ba3, 0x9409e33e, 0x702138a4, 0xec8726cb);
    NextWord(46, 0x0c4763f2, 0x24641522, 0xd3b7973b, 0x702138a4);
    NextWord(47, 0x840abf27, 0x9f47bf94, 0x93f5997f, 0xd3b7973b);
  }

  lemma Words6()
    ensures W(48) == 0xfb3e89cb && W(49) == 0xcc7617db && W(50) == 0xb9e66c34 && W(51) == 0xa9993667
    ensures W(52) == 0x84badedd && W(53) == 0xc21462bc && W(54) == 0x1487472c && W(55) == 0xb20f7a99
  {
    Words4();
    Words5();
    hide W;
    NextWord(48, 0x7a290d5d, 0xf0a64f5a, 0x3b68ba73, 0x93f5997f);
    NextWord(49, 0x065c43da, 0x3e246a79, 0xaff4ffc1, 0x3b68ba73);
    NextWord(50, 0xfb3e89cb, 0x27333ba3, 0xf10a5c62, 0xaff4ffc1);
    NextWord(51, 0xcc7617db, 0x0c4763f2, 0x0a8b3996, 0xf10a5c62);
    NextWord(52, 0xb9e66c34, 0x840abf27, 0x72af830a, 0x0a8b3996);
    NextWord(53, 0xa9993667, 0x7a290d5d, 0x9409e33e, 0x72af830a);
    NextWord(54, 0x84badedd, 0x065c43da, 0x24641522, 0x9409e33e);
    NextWord(55, 0xc21462bc, 0xfb3e89cb, 0x9f47bf94, 0x24641522);
  }

  lemma Words7()
    ensures W(56) == 0xef57b9cd && W(57) == 0xebe6b238 && W(58) == 0x9fe3095e && W(59) == 0x78bc8d4b
    ensures W(60) == 0xa43fcf15 && W(61) == 0x668b2ff8 && W(62) == 0xeeaba2cc && W(63) == 0x12b1edeb
  {
    Words5();
    Words6();
    hide W;
    NextWord(56, 0x1487472c, 0xcc7617db, 0xf0a64f5a, 0x9f47bf94);
    NextWord(57, 0xb20f7a99, 0xb9e66c34, 0x3e246a79, 0xf0a64f5a);
    NextWord(58, 0xef57b9cd, 0xa9993667, 0x27333ba3, 0x3e246a79);
    NextWord(59, 0xebe6b238, 0x84badedd, 0x0c4763f2, 0x27333ba3);
    NextWord(60, 0x9fe3095e, 0xc21462bc, 0x840abf27, 0x0c4763f2);
    NextWord(61, 0x78bc8d4b, 0x1487472c, 0x7a290d5d, 0x840abf27);
    NextWord(62, 0xa43fcf15, 0xb20f7a99, 0x065c43da, 0x7a290d5d);
    NextWord(63, 0x668b2ff8, 0xef57b9cd, 0xfb3e89cb, 0x065c43da);
  }

  /** The working variables after `t` rounds. */
  function After(t: nat): Vars
    requires t <= 64
  {
    Rounds(H0, BLOCK, t)
  }

  function Key(t: nat): Word
    requires t < 64
  {
    K(t)
  }

  lemma NextRound(t: nat, k: Word, w: Word)
    requires t < 64 && Key(t) == k && W(t) == w
    ensures After(t + 1) == Round(After(t), k, w)
  {
    hide Round;
  }

  lemma Keys0()
    ensures Key(0) == 0x428a2f98 && Key(1) == 0x71374491 && Key(2) == 0xb5c0fbcf && Key(3) == 0xe9b5dba5
    ensures Key(4) == 0x3956c25b && Key(5) == 0x59f111f1 && Key(6) == 0x923f82a4 && Key(7) == 0xab1c5ed5
  {
  }

  lemma Rounds0()
    ensures After(8) == Vars(0x85a07b5f, 0xe5030380, 0x2b4209f5, 0x04409a6a,
                             0x0c657a79, 0x9b27a401, 0x714260ad, 0x43ada245)
  {
    assert After(0) == H0;
    Words0();
    Keys0();
    hide W, Key, After, Rounds;
    NextRound(0, 0x428a2f98, 0x61626380);
    assert After(1).a == 0x5d6aebcd && After(1).e == 0xfa2a4622;
    NextRound(1, 0x71374491, 0x00000000);
    assert After(2).a == 0x5a6ad9ad && After(2).e == 0x78ce7989;
    NextRound(2, 0xb5c0fbcf, 0x00000000);
    assert After(3).a == 0xc8c347a7 && After(3).e == 0xf92939eb;
    NextRound(3, 0xe9b5dba5, 0x00000000);
    assert After(4).a == 0xd550f666 && After(4).e == 0x24e00850;
    NextRound(4, 0x3956c25b, 0x00000000);
    assert After(5).a == 0x04409a6a && After(5).e == 0x43ada245;
    NextRound(5, 0x59f111f1, 0x00000000);
    assert After(6).a == 0x2b4209f5 && After(6).e == 0x714260ad;
    NextRound(6, 0x923f82a4, 0x00000000);
    assert After(7).a == 0xe5030380 && After(7).e == 0x9b27a401;
    NextRound(7, 0xab1c5ed5, 0x00000000);
    assert After(8).a == 0x85a07b5f && After(8).e == 0x0c657a79;
  }

  lemma Keys1()
    ensures Key(8) == 0xd807aa98 && Key(9) == 0x12835b01 && Key(10) == 0x243185be && Key(11) == 0x550c7dc3
    ensures Key(12) == 0x72be5d74 && Key(13) == 0x80deb1fe && Key(14) == 0x9bdc06a7 && Key(15) == 0xc19bf174
  {
  }

  lemma Rounds1()
    ensures After(16) == Vars(0xb0fa238e, 0xc0645fde, 0xd932eb16, 0x87912990,
                              0x07590dcd, 0x0b92f20c, 0x745a48de, 0x1e578218)
  {
    Rounds0();
    Words1();
    Keys1();
    hide W, Key, After, Rounds;
    NextRound(8, 0xd807aa98, 0x00000000);
    assert After(9).a == 0x8e04ecb9 && After(9).e == 0x32ca2d8c;
    NextRound(9, 0x12835b01, 0x00000000);
    assert After(10).a == 0x8c87346b && After(10).e == 0x1cc92596;
    NextRound(10, 0x243185be, 0x00000000);
    assert After(11).a == 0x4798a3f4 && After(11).e == 0x436b23e8;
    NextRound(11, 0x550c7dc3, 0x00000000);
    assert After(12).a == 0xf71fc5a9 && After(12).e == 0x816fd6e9;
    NextRound(12, 0x72be5d74, 0x00000000);
    assert After(13).a == 0x87912990 && After(13).e == 0x1e578218;
    NextRound(13, 0x80deb1fe, 0x00000000);
    assert After(14).a == 0xd932eb16 && After(14).e == 0x745a48de;
    NextRound(14, 0x9bdc06a7, 0x00000000);
    assert After(15).a == 0xc0645fde && After(15).e == 0x0b92f20c;
    NextRound(15, 0xc19bf174, 0x00000018);
    assert After(16).a == 0xb0fa238e && After(16).e == 0x07590dcd;
  }

  lemma Keys2()
    ensures Key(16) == 0xe49b69c1 && Key(17) == 0xefbe4786 && Key(18) == 0x0fc19dc6 && Key(19) == 0x240ca1cc
    ensures Key(20) == 0x2de92c6f && Key(21) == 0x4a7484aa && Key(22) == 0x5cb0a9dc && Key(23) == 0x76f988da
  {
  }

  lemma Rounds2()
    ensures After(24) == Vars(0xc5d53d8d, 0xa7a3623f, 0xc2606d6d, 0x9dc68b63,
                              0xaa47c347, 0x49f5114a, 0xe1257970, 0x8ada8930)
  {
    Rounds1();
    Words2();
    Keys2();
    hide W, Key, After, Rounds;
    NextRound(16, 0xe49b69c1, 0x61626380);
    assert After(17).a == 0x21da9a9b && After(17).e == 0x8034229c;
    NextRound(17, 0xefbe4786, 0x000f0000);
    assert After(18).a == 0xc2fbd9d1 && After(18).e == 0x846ee454;
    NextRound(18, 0x0fc19dc6, 0x7da86405);
    assert After(19).a == 0xfe777bbf && After(19).e == 0xcc899961;
    NextRound(19, 0x240ca1cc, 0x600003c6);
    assert After(20).a == 0xe1f20c33 && After(20).e == 0xb0638179;
    NextRound(20, 0x2de92c6f, 0x3e9d7b78);
    assert After(21).a == 0x9dc68b63 && After(21).e == 0x8ada8930;
    NextRound(21, 0x4a7484aa, 0x0183fc00);
    assert After(22).a == 0xc2606d6d && After(22).e == 0xe1257970;
    NextRound(22, 0x5cb0a9dc, 0x12dcbfdb);
    assert After(23).a == 0xa7a3623f && After(23).e == 0x49f5114a;
    NextRound(23, 0x76f988da, 0xe2e2c38e);
    assert After(24).a == 0xc5d53d8d && After(24).e == 0xaa47c347;
  }

  lemma Keys3()
    ensures Key(24) == 0x983e5152 && Key(25) == 0xa831c66d && Key(26) == 0xb00327c8 && Key(27) == 0xbf597fc7
    ensures Key(28) == 0xc6e00bf3 && Key(29) == 0xd5a79147 && Key(30) == 0x06ca6351 && Key(31) == 0x14292967
  {
  }

  lemma Rounds3()
    ensures After(32) == Vars(0x73b33bf5, 0xea992a22, 0xa0060b30, 0x363482c9,
                              0xba591112, 0x0109ab3a, 0xade79437, 0x6112a3b7)
  {
    Rounds2();
    Words3();
    Keys3();
    hide W, Key, After, Rounds;
    NextRound(24, 0x983e5152, 0xc8215c1a);
    assert After(25).a == 0x1c2c2838 && After(25).e == 0x2823ef91;
    NextRound(25, 0xa831c66d, 0xb73679a2);
    assert After(26).a == 0xcde8037d && After(26).e == 0x14383d8e;
    NextRound(26, 0xb00327c8, 0xe5bc3909);
    assert After(27).a == 0xb62ec4bc && After(27).e == 0xc74c6516;
    NextRound(27, 0xbf597fc7, 0x32663c5b);
    assert After(28).a == 0x77d37528 && After(28).e == 0xedffbff8;
    NextRound(28, 0xc6e00bf3, 0x9d209d67);
    assert After(29).a == 0x363482c9 && After(29).e == 0x6112a3b7;
    NextRound(29, 0xd5a79147, 0xec8726cb);
    assert After(30).a == 0xa0060b30 && After(30).e == 0xade79437;
    NextRound(30, 0x06ca6351, 0x702138a4);
    assert After(31).a == 0xea992a22 && After(31).e == 0x0109ab3a;
    NextRound(31, 0x14292967, 0xd3b7973b);
    assert After(32).a == 0x73b33bf5 && After(32).e == 0xba591112;
  }

  lemma Keys4()
    ensures Key(32) == 0x27b70a85 && Key(33) == 0x2e1b2138 && Key(34) == 0x4d2c6dfc && Key(35) == 0x53380d13
    ensures Key(36) == 0x650a7354 && Key(37) == 0x766a0abb && Key(38) == 0x81c2c92e && Key(39) == 0x92722c85
  {
  }

  lemma Rounds4()
    ensures After(40) == Vars(0x79ea687a, 0x6dc57a8a, 0x34df1604, 0x41a65cb1,
                              0x1efbc0a0, 0xf0781bc8, 0xa507a53d, 0x0772a26b)
  {
    Rounds3();
    Words4();
    Keys4();
    hide W, Key, After, Rounds;
    NextRound(32, 0x27b70a85, 0x93f5997f);
    assert After(33).a == 0x98e12507 && After(33).e == 0x9cd9f5f6;
    NextRound(33, 0x2e1b2138, 0x3b68ba73);
    assert After(34).a == 0xfe604df5 && After(34).e == 0x59249dd3;
    NextRound(34, 0x4d2c6dfc, 0xaff4ffc1);
    assert After(35).a == 0xa9a7738c && After(35).e == 0x085f3833;
    NextRound(35, 0x53380d13, 0xf10a5c62);
    assert After(36).a == 0x65a0cfe4 && After(36).e == 0xf4b002d6;
    NextRound(36, 0x650a7354, 0x0a8b3996);
    assert After(37).a == 0x41a65cb1 && After(37).e == 0x0772a26b;
    NextRound(37, 0x766a0abb, 0x72af830a);
    assert After(38).a == 0x34df1604 && After(38).e == 0xa507a53d;
    NextRound(38, 0x81c2c92e, 0x9409e33e);
    assert After(39).a == 0x6dc57a8a && After(39).e == 0xf0781bc8;
    NextRound(39, 0x92722c85, 0x24641522);
    assert After(40).a == 0x79ea687a && After(40).e == 0x1efbc0a0;
  }

  lemma Keys5()
    ensures Key(40) == 0xa2bfe8a1 && Key(41) == 0xa81a664b && Key(42) == 0xc24b8b70 && Key(43) == 0xc76c51a3
    ensures Key(44) == 0xd192e819 && Key(45) == 0xd6990624 && Key(46) == 0xf40e3585 && Key(47) == 0x106aa070
  {
  }

  lemma Rounds5()
    ensures After(48) == Vars(0x4172328d, 0xa14c14b0, 0x72ab4b91, 0x26628815,
                              0xfecf0bc6, 0xd57b94a9, 0xb7755da1, 0xa80f11f0)
  {
    Rounds4();
    Words5();
    Keys5();
    hide W, Key, After, Rounds;
    NextRound(40, 0xa2bfe8a1, 0x9f47bf94);
    assert After(41).a == 0xd6670766 && After(41).e == 0x26352d63;
    NextRound(41, 0xa81a664b, 0xf0a64f5a);
    assert After(42).a == 0xdf46652f && After(42).e == 0x838b2711;
    NextRound(42, 0xc24b8b70, 0x3e246a79);
    assert After(43).a == 0x17aa0dfe && After(43).e == 0xdecd4715;
    NextRound(43, 0xc76c51a3, 0x27333ba3);
    assert After(44).a == 0x9d4baf93 && After(44).e == 0xfda24c2e;
    NextRound(44, 0xd192e819, 0x0c4763f2);
    assert After(45).a == 0x26628815 && After(45).e == 0xa80f11f0;
    NextRound(45, 0xd6990624, 0x840abf27);
    assert After(46).a == 0x72ab4b91 && After(46).e == 0xb7755da1;
    NextRound(46, 0xf40e3585, 0x7a290d5d);
    assert After(47).a == 0xa14c14b0 && After(47).e == 0xd57b94a9;
    NextRound(47, 0x106aa070, 0x065c43da);
    assert After(48).a == 0x4172328d && After(48).e == 0xfecf0bc6;
  }

  lemma Keys6()
    ensures Key(48) == 0x19a4c116 && Key(49) == 0x1e376c08 && Key(50) == 0x2748774c && Key(51) == 0x34b0bcb5
    ensures Key(52) == 0x391c0cb3 && Key(53) == 0x4ed8aa4a && Key(54) == 0x5b9cca4f && Key(55) == 0x682e6ff3
  {
  }

  lemma Rounds6()
    ensures After(56) == Vars(0x38cc9913, 0x3ec45cdb, 0xf5702fdb, 0x101fd28f,
                              0x54cb266b, 0xe50e1b4f, 0x9f4787c3, 0x529e7d00)
  {
    Rounds5();
    Words6();
    Keys6();
    hide W, Key, After, Rounds;
    NextRound(48, 0x19a4c116, 0xfb3e89cb);
    assert After(49).a == 0x05757ceb && After(49).e == 0xbd714038;
    NextRound(49, 0x1e376c08, 0xcc7617db);
    assert After(50).a == 0xf11bfaa8 && After(50).e == 0x6e5c390c;
    NextRound(50, 0x2748774c, 0xb9e66c34);
    assert After(51).a == 0x7a0508a1 && After(51).e == 0x52f1ccf7;
    NextRound(51, 0x34b0bcb5, 0xa9993667);
    assert After(52).a == 0x886e7a22 && After(52).e == 0x49231c1e;
    NextRound(52, 0x391c0cb3, 0x84badedd);
    assert After(53).a == 0x101fd28f && After(53).e == 0x529e7d00;
    NextRound(53, 0x4ed8aa4a, 0xc21462bc);
    assert After(54).a == 0xf5702fdb && After(54).e == 0x9f4787c3;
    NextRound(54, 0x5b9cca4f, 0x1487472c);
    assert After(55).a == 0x3ec45cdb && After(55).e == 0xe50e1b4f;
    NextRound(55, 0x682e6ff3, 0xb20f7a99);
    assert After(56).a == 0x38cc9913 && After(56).e == 0x54cb266b;
  }

  lemma Keys7()
    ensures Key(56) == 0x748f82ee && Key(57) == 0x78a5636f && Key(58) == 0x84c87814 && Key(59) == 0x8cc70208
    ensures Key(60) == 0x90befffa && Key(61) == 0xa4506ceb && Key(62) == 0xbef9a3f7 && Key(63) == 0xc67178f2
  {
  }

  lemma Rounds7()
    ensures After(64) == Vars(0x506e3058, 0xd39a2165, 0x04d24d6c, 0xb85e2ce9,
                              0x5ef50f24, 0xfb121210, 0x948d25b6, 0x961f4894)
  {
    Rounds6();
    Words7();
    Keys7();
    hide W, Key, After, Rounds;
    NextRound(56, 0x748f82ee, 0xef57b9cd);
    assert After(57).a == 0xfcd1887b && After(57).e == 0x9b5e906c;
    NextRound(57, 0x78a5636f, 0xebe6b238);
    assert After(58).a == 0xc062d46f && After(58).e == 0x7e44008e;
    NextRound(58, 0x84c87814, 0x9fe3095e);
    assert After(59).a == 0xffb70472 && After(59).e == 0x6d83bfc6;
    NextRound(59, 0x8cc70208, 0x78bc8d4b);
    assert After(60).a == 0xb6ae8fff && After(60).e == 0xb21bad3d;
    NextRound(60, 0x90befffa, 0xa43fcf15);
    assert After(61).a == 0xb85e2ce9 && After(61).e == 0x961f4894;
    NextRound(61, 0xa4506ceb, 0x668b2ff8);
    assert After(62).a == 0x04d24d6c && After(62).e == 0x948d25b6;
    NextRound(62, 0xbef9a3f7, 0xeeaba2cc);
    assert After(63).a == 0xd39a2165 && After(63).e == 0xfb121210;
    NextRound(63, 0xc67178f2, 0x12b1edeb);
    assert After(64).a == 0x506e3058 && After(64).e == 0x5ef50f24;
  }

  lemma Feedback()
    ensures Add(H0, Vars(0x506e3058, 0xd39a2165, 0x04d24d6c, 0xb85e2ce9,
                         0x5ef50f24, 0xfb121210, 0x948d25b6, 0x961f4894))
         == Vars(0xba7816bf, 0x8f01cfea, 0x414140de, 0x5dae2223,
                 0xb00361a3, 0x96177a9c, 0xb410ff61, 0xf20015ad)
  {
  }

  lemma LastBlock()
    ensures Chain(BLOCK) == Add(H0, After(64))
  {
    assert BLOCK[..0] == [] && BLOCK[0..] == BLOCK;
    assert |BLOCK| == 64;
    hide Add, Rounds;
  }

  lemma NextBytes(words: seq<Word>, i: nat)
    requires i < |words|
    ensures BytesOf(words[..i + 1]) == BytesOf(words[..i]) + WordBytes(words[i])
  {
    assert words[..i + 1][..i] == words[..i];
  }

  lemma BytesOfEight(w: seq<Word>)
    requires |w| == 8
    ensures BytesOf(w) ==
      WordBytes(w[0]) + WordBytes(w[1]) + WordBytes(w[2]) + WordBytes(w[3])
      + WordBytes(w[4]) + WordBytes(w[5]) + WordBytes(w[6]) + WordBytes(w[7])
  {
    FirstBytes(w);
    FourMore(w, 1);
    NextBytes(w, 5);
    NextBytes(w, 6);
    NextBytes(w, 7);
    hide BytesOf, WordBytes;
    assert w[..8] == w;
  }

  lemma FirstBytes(w: seq<Word>)
    requires |w| > 0
    ensures BytesOf(w[..1]) == WordBytes(w[0])
  {
    NextBytes(w, 0);
    hide WordBytes;
    assert w[..0] == [];
  }

  lemma FourMore(w: seq<Word>, i: nat)
    requires i + 4 <= |w|
    ensures BytesOf(w[..i + 4]) ==
      BytesOf(w[..i]) + WordBytes(w[i]) + WordBytes(w[i + 1]) + WordBytes(w[i + 2]) + WordBytes(w[i + 3])
  {
    hide BytesOf, WordBytes;
    NextBytes(w, i);
    NextBytes(w, i + 1);
    NextBytes(w, i + 2);
    NextBytes(w, i + 3);
  }

  lemma HashOfAbc()
    ensures Chain(Pad(ABC)) == Vars(0xba7816bf, 0x8f01cfea, 0x414140de, 0x5dae2223,
                                    0xb00361a3, 0x96177a9c, 0xb410ff61, 0xf20015ad)
  {
    PaddedAbc();
    Rounds7();
    Feedback();
    LastBlock();
    hide Add, Chain, Pad, After, Schedule, Rounds, WordAt;
  }

  /** The digest of "abc". */
  lemma DigestOfAbc()
    ensures Sha256(ABC) == [
      0xba, 0x78, 0x16, 0xbf, 0x8f, 0x01, 0xcf, 0xea,
      0x41, 0x41, 0x40, 0xde, 0x5d, 0xae, 0x22, 0x23,
      0xb0, 0x03, 0x61, 0xa3, 0x96, 0x17, 0x7a, 0x9c,
      0xb4, 0x10, 0xff, 0x61, 0xf2, 0x00, 0x15, 0xad]
  {
    HashOfAbc();
    hide Chain, Pad, BytesOf;
    BytesOfEight(WordsOf(Chain(Pad(ABC))));
    assert WordBytes(0xba7816bf) == [0xba, 0x78, 0x16, 0xbf];
    assert WordBytes(0x8f01cfea) == [0x8f, 0x01, 0xcf, 0xea];
    assert WordBytes(0x414140de) == [0x41, 0x41, 0x40, 0xde];
    assert WordBytes(0x5dae2223) == [0x5d, 0xae, 0x22, 0x23];
    assert WordBytes(0xb00361a3) == [0xb0, 0x03, 0x61, 0xa3];
    assert WordBytes(0x96177a9c) == [0x96, 0x17, 0x7a, 0x9c];
    assert WordBytes(0xb410ff61) == [0xb4, 0x10, 0xff, 0x61];
    assert WordBytes(0xf20015ad) == [0xf2, 0x00, 0x15, 0xad];
    hide WordBytes;
  }
}
