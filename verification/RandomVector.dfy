/** The first block of the generator against the test vector in section 2.3.2 of RFC 7539. */
module RandomVector {
  import opened RandomStream

  /** The quarter round on four words. */
  function Quarter(a: Word, b: Word, c: Word, d: Word): (Word, Word, Word, Word) {
    var a := Plus(a, b);
    var d := Rotate(Xor(d, a), 16);
    var c := Plus(c, d);
    var b := Rotate(Xor(b, c), 12);
    var a := Plus(a, b);
    var d := Rotate(Xor(d, a), 8);
    var c := Plus(c, d);
    var b := Rotate(Xor(b, c), 7);
    (a, b, c, d)
  }

  lemma {:induction false} QuarterRoundIs(s: Words, a: nat, b: nat, c: nat, d: nat)
    requires a < 16 && b < 16 && c < 16 && d < 16
    requires a != b && a != c && a != d && b != c && b != d && c != d
    ensures var r := QuarterRound(s, a, b, c, d);
            && Quarter(s[a], s[b], s[c], s[d]) == (r[a], r[b], r[c], r[d])
            && forall i :: 0 <= i < 16 && i != a && i != b && i != c && i != d ==> r[i] == s[i]
  {
    hide Plus, Xor, Rotate;
  }

  /** Words `a`, `b`, `c` and `d` of `t` are the quarter round of those of `s`. */
  predicate QuarterAt(s: Words, t: Words, a: nat, b: nat, c: nat, d: nat)
    requires a < 16 && b < 16 && c < 16 && d < 16
  {
    Quarter(s[a], s[b], s[c], s[d]) == (t[a], t[b], t[c], t[d])
  }

  ghost predicate Columns(s: Words, t: Words) {
    QuarterAt(s, t, 0, 4, 8, 12) && QuarterAt(s, t, 1, 5, 9, 13) &&
    QuarterAt(s, t, 2, 6, 10, 14) && QuarterAt(s, t, 3, 7, 11, 15)
  }

  ghost predicate Diagonals(s: Words, t: Words) {
    QuarterAt(s, t, 0, 5, 10, 15) && QuarterAt(s, t, 1, 6, 11, 12) &&
    QuarterAt(s, t, 2, 7, 8, 13) && QuarterAt(s, t, 3, 4, 9, 14)
  }

  lemma {:induction false} ColumnRounds(s: Words, t: Words)
    requires Columns(s, t)
    ensures QuarterRound(QuarterRound(QuarterRound(QuarterRound(s, 0, 4, 8, 12), 1, 5, 9, 13), 2, 6, 10, 14),
                         3, 7, 11, 15) == t
  {
    hide QuarterRound, Quarter;
    QuarterRoundIs(s, 0, 4, 8, 12);
    var s1 := QuarterRound(s, 0, 4, 8, 12);
    QuarterRoundIs(s1, 1, 5, 9, 13);
    var s2 := QuarterRound(s1, 1, 5, 9, 13);
    QuarterRoundIs(s2, 2, 6, 10, 14);
    var s3 := QuarterRound(s2, 2, 6, 10, 14);
    QuarterRoundIs(s3, 3, 7, 11, 15);
    var s4 := QuarterRound(s3, 3, 7, 11, 15);
    forall i | 0 <= i < 16 ensures s4[i] == t[i] {
      assert i in {0, 4, 8, 12} || i in {1, 5, 9, 13} || i in {2, 6, 10, 14} || i in {3, 7, 11, 15};
    }
  }

  lemma {:induction false} DiagonalRounds(s: Words, t: Words)
    requires Diagonals(s, t)
    ensures QuarterRound(QuarterRound(QuarterRound(QuarterRound(s, 0, 5, 10, 15), 1, 6, 11, 12), 2, 7, 8, 13),
                         3, 4, 9, 14) == t
  {
    hide QuarterRound, Quarter;
    QuarterRoundIs(s, 0, 5, 10, 15);
    var s1 := QuarterRound(s, 0, 5, 10, 15);
    QuarterRoundIs(s1, 1, 6, 11, 12);
    var s2 := QuarterRound(s1, 1, 6, 11, 12);
    QuarterRoundIs(s2, 2, 7, 8, 13);
    var s3 := QuarterRound(s2, 2, 7, 8, 13);
    QuarterRoundIs(s3, 3, 4, 9, 14);
    var s4 := QuarterRound(s3, 3, 4, 9, 14);
    forall i | 0 <= i < 16 ensures s4[i] == t[i] {
      assert i in {0, 5, 10, 15} || i in {1, 6, 11, 12} || i in {2, 7, 8, 13} || i in {3, 4, 9, 14};
    }
  }

  lemma {:induction false} DoubleRoundIs(s: Words, m: Words, t: Words)
    requires Columns(s, m) && Diagonals(m, t)
    ensures DoubleRound(s) == t
  {
    hide QuarterRound, Columns, Diagonals;
    ColumnRounds(s, m);
    DiagonalRounds(m, t);
  }

  // ---------------------------------------------------------------- the state after each half of a double round

  const S0: Words := [0x61707865, 0x3320646e, 0x79622d32, 0x6b206574,
                      0x03020100, 0x07060504, 0x0b0a0908, 0x0f0e0d0c,
                      0x13121110, 0x17161514, 0x1b1a1918, 0x1f1e1d1c,
                      0x00000001, 0x09000000, 0x4a000000, 0x00000000]

  const M0: Words := [0xabbaa25c, 0x1efa51ea, 0x7354fbdf, 0x83d2dc69,
                      0x3a465196, 0x1c7e64f6, 0xb12fb628, 0xf05b6976,
                      0x6b3ca454, 0x08eb14b1, 0xbf8a9ac9, 0xe444df3b,
                      0xdec62ed2, 0x8862cc77, 0x6e35b345, 0x52a647f1]

  const S1: Words := [0xcd52e917, 0x85ab03b4, 0xb3457395, 0xf96de7dd,
                      0xc4b7cd22, 0x5c2e187a, 0xc95eb461, 0x316c801a,
                      0x7bf7d740, 0x7eddd644, 0xf1a1bdf5, 0x761246ca,
                      0x6b0d58a3, 0x6798471a, 0xd737f167, 0xf173888d]

  const M1: Words := [0xe3e1111b, 0xa6291491, 0x5a82b80c, 0x4500fd45,
                      0xd65b5b5b, 0xf56af099, 0x4ccc8103, 0xc94d29e2,
                      0xe67aec54, 0xf7a52d82, 0xdb470914, 0xdfb40f1d,
                      0x7be81c0d, 0x1d92d0fd, 0x13139f8c, 0x7a26ecaa]

  const S2: Words := [0xcf1a7584, 0x048927ec, 0x54051fda, 0xc244ff28,
                      0x901d2f40, 0x7974b81c, 0x378dcfb4, 0xcd47fd0e,
                      0x2dafb216, 0x27c89cd6, 0xcd3c9aa0, 0x79fc89c7,
                      0x10aef18d, 0x16218765, 0x68f76705, 0x04d6ee22]

  const M2: Words := [0xa22695f2, 0xa908cf6c, 0xe6ae05b2, 0xfe0ff04b,
                      0x1ece4458, 0xe82b726f, 0x5a21ab90, 0x87698c64,
                      0xf2d36da6, 0xf4dab980, 0x7baf5573, 0xa78c270d,
                      0x6fda6bf7, 0x65a4b0ce, 0x25e6d76e, 0x1b7b11ec]

  const S3: Words := [0x03a14032, 0x66b15927, 0x9d6b6b42, 0xb84c4109,
                      0xa7143ae0, 0xa09b33dd, 0xa5daaf88, 0x2fd91a73,
                      0xc90c6b18, 0x5a202413, 0xc20e01b6, 0x72cd6b74,
                      0xba35d777, 0xb360f1bf, 0x8178315b, 0x2cd11b1a]

  const M3: Words := [0xfecd0838, 0x160ab468, 0x9a0ddf4e, 0xbac7154a,
                      0xcedf6624, 0xb11de6c4, 0xbd7810ef, 0xd22b5643,
                      0x1d8a33ea, 0x87dc1ca9, 0x89bd34a5, 0x5505ef62,
                      0xa818b852, 0xb100446a, 0x9c1d70b1, 0xa1d1befa]

  const S4: Words := [0x9a2d3589, 0x0b23fc4e, 0x40af3b6b, 0xceea8144,
                      0x0a1bffc6, 0x5e5993f7, 0x9904c2e7, 0x0d334718,
                      0xe46c6354, 0xc9503229, 0x04fef5aa, 0xf8933f72,
                      0x2687d476, 0x54e65231, 0x3594ffc5, 0x2b3bb2ca]

  const M4: Words := [0x85e7824a, 0x4940cd9e, 0xfbe7684b, 0x7335d03d,
                      0x1c133ea1, 0xbba40b0f, 0x9413992a, 0xa4ab2040,
                      0xa3a66a86, 0xc0b4754f, 0x771b4ecb, 0x165151a1,
                      0xde008464, 0x34f0058b, 0x70846cfa, 0xa3271b09]

  const S5: Words := [0xc53318c5, 0xca325d96, 0x7e7d11cb, 0x3404e2ca,
                      0x26d7cf73, 0x6088d379, 0xc0f0e9bd, 0xe310cdb9,
                      0xae2ca8db, 0x42f67c72, 0x71669aca, 0x975c171d,
                      0x9e5ec228, 0x7d85a9f3, 0x201d0756, 0x63fa6953]

  const M5: Words := [0x9950b826, 0xcac7ccc6, 0x84a67673, 0xdb3109a6,
                      0x2121065a, 0xc12bdadb, 0xcae3acd1, 0x594616cb,
                      0x19078de2, 0x178ecc02, 0xe6adbdb2, 0x52a9d50e,
                      0x40ca72b3, 0x3b9bf852, 0x78690378, 0xe17d4902]

  const S6: Words := [0x04a3131a, 0x66176309, 0x0415bab1, 0x61b880a2,
                      0x36cc86c7, 0xbf8a4465, 0xf77dd720, 0xfc0bdc90,
                      0x07d13aca, 0xeb0be9af, 0x61599491, 0x918512dc,
                      0x33b6686d, 0x795cc671, 0xc0049972, 0xa0a81bde]

  const M6: Words := [0x57c5e6da, 0x35ce46a8, 0x0c041bb9, 0xfa91df79,
                      0x8e85d82f, 0xb4819d06, 0xb63be200, 0xacd221e4,
                      0x434b4749, 0x1d459c00, 0x111cfe2c, 0x55942604,
                      0x49ee03a6, 0xd11a5554, 0xa7202e04, 0x7d2215bc]

  const S7: Words := [0x9b70f51f, 0x7ea8ac11, 0x21e54da9, 0xca393b2f,
                      0x93b08686, 0x6a4c50ae, 0x19212a5a, 0x9b032958,
                      0xd839165e, 0x4c06e28a, 0xd3fde99e, 0x26acc13d,
                      0xa609f555, 0x2c246549, 0x95151853, 0x2c847a0d]

  const M7: Words := [0xc0b18aee, 0x087445ba, 0x36e52ad9, 0xa777426a,
                      0xdeb54e9c, 0x802c883b, 0x06e86889, 0x3c002680,
                      0xa82d65d4, 0x687f11eb, 0xe9d36207, 0x4242ddae,
                      0x4103c64e, 0x82816a91, 0xb584ca56, 0xfd0bd2b9]

  const S8: Words := [0xca5c85dd, 0x93a4f90e, 0xd9f0df58, 0x26dd82dd,
                      0x982563f8, 0x712aa9ff, 0x279a61e8, 0x970f72bd,
                      0x1c25931a, 0x5180bb10, 0x779c27e7, 0x54077e08,
                      0xa9b751fb, 0x382f3ce2, 0x8db1757d, 0xcc38080b]

  const M8: Words := [0x765c6e9c, 0x5ab09b11, 0x3ee7da04, 0x37c31203,
                      0x9046ecaa, 0x7b88d882, 0xb9b577dd, 0x156de7ed,
                      0x46fa091e, 0x5117e9b5, 0x862ff22b, 0xa3fcc7a6,
                      0x72a5aace, 0x5fa7f1c5, 0xda563e0a, 0x5263d7ca]

  const S9: Words := [0xb6b87de6, 0x9a016148, 0x93859815, 0x4915e6cc,
                      0xdc33c122, 0x98e18fa3, 0x5ffbe8fc, 0xf7154b8b,
                      0x28c1fcb3, 0xc4b38f9d, 0x83e2f5d7, 0x7d24b98b,
                      0x21078b22, 0xb193e7a3, 0xb2f49389, 0x6cde6026]

  const M9: Words := [0x8a07ff15, 0x0cadc51c, 0x017c8da9, 0x4afbe5df,
                      0x913768fe, 0x442a0c0c, 0x598fe3bb, 0x47d18828,
                      0x0a39aedc, 0xc1428029, 0x7b48135f, 0x5a5f1098,
                      0x2d4cfe3e, 0xe5466d1b, 0xe4ccdc13, 0x8ac92a18]

  const S10: Words := [0x837778ab, 0xe238d763, 0xa67ae21e, 0x5950bb2f,
                       0xc4f2d0c7, 0xfc62bb2f, 0x8fa018fc, 0x3f5ec7b7,
                       0x335271c2, 0xf29489f3, 0xeabda8fc, 0x82e46ebd,
                       0xd19c12b4, 0xb04e16de, 0x9e83d0cb, 0x4e3c50a2]

  lemma {:induction false} DoubleRound0()
    ensures DoubleRound(S0) == S1
  {
    hide DoubleRound;
    Columns0();
    Diagonals0();
    DoubleRoundIs(S0, M0, S1);
  }

  lemma {:induction false} Columns0()
    ensures Columns(S0, M0)
  {
  }

  lemma {:induction false} Diagonals0()
    ensures Diagonals(M0, S1)
  {
  }

  lemma {:induction false} DoubleRound1()
    ensures DoubleRound(S1) == S2
  {
    hide DoubleRound;
    Columns1();
    Diagonals1();
    DoubleRoundIs(S1, M1, S2);
  }

  lemma {:induction false} Columns1()
    ensures Columns(S1, M1)
  {
  }

  lemma {:induction false} Diagonals1()
    ensures Diagonals(M1, S2)
  {
  }

  lemma {:induction false} DoubleRound2()
    ensures DoubleRound(S2) == S3
  {
    hide DoubleRound;
    Columns2();
    Diagonals2();
    DoubleRoundIs(S2, M2, S3);
  }

  lemma {:induction false} Columns2()
    ensures Columns(S2, M2)
  {
  }

  lemma {:induction false} Diagonals2()
    ensures Diagonals(M2, S3)
  {
  }

  lemma {:induction false} DoubleRound3()
    ensures DoubleRound(S3) == S4
  {
    hide DoubleRound;
    Columns3();
    Diagonals3();
    DoubleRoundIs(S3, M3, S4);
  }

  lemma {:induction false} Columns3()
    ensures Columns(S3, M3)
  {
  }

  lemma {:induction false} Diagonals3()
    ensures Diagonals(M3, S4)
  {
  }

  lemma {:induction false} DoubleRound4()
    ensures DoubleRound(S4) == S5
  {
    hide DoubleRound;
    Columns4();
    Diagonals4();
    DoubleRoundIs(S4, M4, S5);
  }

  lemma {:induction false} Columns4()
    ensures Columns(S4, M4)
  {
  }

  lemma {:induction false} Diagonals4()
    ensures Diagonals(M4, S5)
  {
  }

  lemma {:induction false} DoubleRound5()
    ensures DoubleRound(S5) == S6
  {
    hide DoubleRound;
    Columns5();
    Diagonals5();
    DoubleRoundIs(S5, M5, S6);
  }

  lemma {:induction false} Columns5()
    ensures Columns(S5, M5)
  {
  }

  lemma {:induction false} Diagonals5()
    ensures Diagonals(M5, S6)
  {
  }

  lemma {:induction false} DoubleRound6()
    ensures DoubleRound(S6) == S7
  {
    hide DoubleRound;
    Columns6();
    Diagonals6();
    DoubleRoundIs(S6, M6, S7);
  }

  lemma {:induction false} Columns6()
    ensures Columns(S6, M6)
  {
  }

  lemma {:induction false} Diagonals6()
    ensures Diagonals(M6, S7)
  {
  }

  lemma {:induction false} DoubleRound7()
    ensures DoubleRound(S7) == S8
  {
    hide DoubleRound;
    Columns7();
    Diagonals7();
    DoubleRoundIs(S7, M7, S8);
  }

  lemma {:induction false} Columns7()
    ensures Columns(S7, M7)
  {
  }

  lemma {:induction false} Diagonals7()
    ensures Diagonals(M7, S8)
  {
  }

  lemma {:induction false} DoubleRound8()
    ensures DoubleRound(S8) == S9
  {
    hide DoubleRound;
    Columns8();
    Diagonals8();
    DoubleRoundIs(S8, M8, S9);
  }

  lemma {:induction false} Columns8()
    ensures Columns(S8, M8)
  {
  }

  lemma {:induction false} Diagonals8()
    ensures Diagonals(M8, S9)
  {
  }

  lemma {:induction false} DoubleRound9()
    ensures DoubleRound(S9) == S10
  {
    hide DoubleRound;
    Columns9();
    Diagonals9();
    DoubleRoundIs(S9, M9, S10);
  }

  lemma {:induction false} Columns9()
    ensures Columns(S9, M9)
  {
  }

  lemma {:induction false} Diagonals9()
    ensures Diagonals(M9, S10)
  {
  }

  lemma {:induction false} TenDoubleRounds()
    ensures Rounds(S0, 10) == S10
  {
    hide DoubleRound;
    DoubleRound0();
    DoubleRound1();
    DoubleRound2();
    DoubleRound3();
    DoubleRound4();
    DoubleRound5();
    DoubleRound6();
    DoubleRound7();
    DoubleRound8();
    DoubleRound9();
    assert Rounds(S0, 5) == S5;
  }

  lemma {:induction false} FinalSum(r: Words)
    requires r == [0xe4e7f110, 0x15593bd1, 0x1fdd0f50, 0xc47120a3,
                  0xc7f4d1c7, 0x0368c033, 0x9aaa2204, 0x4e6cd4c3,
                  0x466482d2, 0x09aa9f07, 0x05d7c214, 0xa2028bd9,
                  0xd19c12b5, 0xb94e16de, 0xe883d0cb, 0x4e3c50a2]
    ensures AddWords(S10, S0) == r
  {
    hide AddWords, Plus;
    SumFront(r);
    SumBack(r);
  }

  lemma {:induction false} SumFront(r: Words)
    requires r[..8] == [0xe4e7f110, 0x15593bd1, 0x1fdd0f50, 0xc47120a3,
                      0xc7f4d1c7, 0x0368c033, 0x9aaa2204, 0x4e6cd4c3]
    ensures forall i :: 0 <= i < 8 ==> Plus(S10[i], S0[i]) == r[i]
  {
    assert forall i :: 0 <= i < 8 ==> r[i] == r[..8][i];
  }

  lemma {:induction false} SumBack(r: Words)
    requires r[8..] == [0x466482d2, 0x09aa9f07, 0x05d7c214, 0xa2028bd9,
                      0xd19c12b5, 0xb94e16de, 0xe883d0cb, 0x4e3c50a2]
    ensures forall i :: 8 <= i < 16 ==> Plus(S10[i], S0[i]) == r[i]
  {
    assert forall i :: 8 <= i < 16 ==> r[i] == r[8..][i - 8];
  }

  /** Key octets 00 to 1f, block counter 1 and nonce 00000009 0000004a 00000000 give this block. */
  lemma {:induction false} FirstBlockMeetsTestVector(seed: seq<Word>, nonce: seq<Word>)
    requires seed == [0x03020100, 0x07060504, 0x0b0a0908, 0x0f0e0d0c,
                      0x13121110, 0x17161514, 0x1b1a1918, 0x1f1e1d1c]
    requires nonce == [0x09000000, 0x4a000000, 0x00000000]
    ensures BlockOf(InitialWords(seed, nonce, 1))
            == [0xe4e7f110, 0x15593bd1, 0x1fdd0f50, 0xc47120a3,
                0xc7f4d1c7, 0x0368c033, 0x9aaa2204, 0x4e6cd4c3,
                0x466482d2, 0x09aa9f07, 0x05d7c214, 0xa2028bd9,
                0xd19c12b5, 0xb94e16de, 0xe883d0cb, 0x4e3c50a2]
  {
    hide Rounds, InitialWords, AddWords;
    StartOf(seed, nonce);
    TenDoubleRounds();
    FinalSum([0xe4e7f110, 0x15593bd1, 0x1fdd0f50, 0xc47120a3,
              0xc7f4d1c7, 0x0368c033, 0x9aaa2204, 0x4e6cd4c3,
              0x466482d2, 0x09aa9f07, 0x05d7c214, 0xa2028bd9,
              0xd19c12b5, 0xb94e16de, 0xe883d0cb, 0x4e3c50a2]);
  }

  lemma {:induction false} StartOf(seed: seq<Word>, nonce: seq<Word>)
    requires seed == [0x03020100, 0x07060504, 0x0b0a0908, 0x0f0e0d0c,
                      0x13121110, 0x17161514, 0x1b1a1918, 0x1f1e1d1c]
    requires nonce == [0x09000000, 0x4a000000, 0x00000000]
    ensures InitialWords(seed, nonce, 1) == S0
  {
  }

  /** The four octets of a word, the lowest first, make the word. */
  lemma {:induction false} OctetsMakeWord(block: Words, i: nat)
    requires i < 16
    ensures var a, b, c, d := OctetOf(block, 4 * i), OctetOf(block, 4 * i + 1), OctetOf(block, 4 * i + 2),
                              OctetOf(block, 4 * i + 3);
            && a < 256 && b < 256 && c < 256 && d < 256
            && block[i] == a | (b << 8) | (c << 16) | (d << 24)
  {
    hide OctetOf;
    OctetIs(block, i, 4 * i);
    OctetIs(block, i, 4 * i + 1);
    OctetIs(block, i, 4 * i + 2);
    OctetIs(block, i, 4 * i + 3);
    WordSplits(block[i]);
  }

  lemma {:induction false} OctetIs(block: Words, i: nat, k: nat)
    requires i < 16 && 4 * i <= k < 4 * i + 4
    ensures OctetOf(block, k) == WordOctet(block[i], k - 4 * i)
  {
    hide WordOctet;
    assert k / 4 == i && k % 4 == k - 4 * i;
  }

  lemma {:induction false} WordSplits(w: Word)
    ensures var a, b, c, d := w & 0xFF, (w >> 8) & 0xFF, (w >> 16) & 0xFF, (w >> 24) & 0xFF;
            a < 256 && b < 256 && c < 256 && d < 256 && w == a | (b << 8) | (c << 16) | (d << 24)
  {
  }
}
