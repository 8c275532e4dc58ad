/** The one-block example message "abc" of FIPS 180: every schedule word and every round by
    value, so that no constant, rotation or order in Sha1Spec is left to itself. */
module Sha1Example {
  import opened Words
  import opened Sha1Spec

  const ABC: seq<Byte> := [0x61, 0x62, 0x63]

  /** One schedule word from the four it depends on. */
  lemma Next(b: seq<Byte>, t: nat, p: Word, q: Word, r: Word, s: Word, w: Word)
    requires |b| == BLOCK_SIZE && t >= 16 && Rotl(Xor4(p, q, r, s), 1) == w
    requires Schedule(MsbFirst, b, t-3) == p && Schedule(MsbFirst, b, t-8) == q
    requires Schedule(MsbFirst, b, t-14) == r && Schedule(MsbFirst, b, t-16) == s
    ensures Schedule(MsbFirst, b, t) == w
  {
  }

  /** One round from the state before it. */
  lemma Turn(w: seq<Word>, n: nat, s: Chain, x: Word, r: Chain)
    requires n < |w| && w[n] == x && Rounds(w, IV, n) == s && Round(n, s, x) == r
    ensures Rounds(w, IV, n + 1) == r
  {
  }

  predicate Words0(b: seq<Byte>)
    requires |b| == BLOCK_SIZE
  {
    Schedule(MsbFirst, b, 0) == 0x61626380 && Schedule(MsbFirst, b, 1) == 0x00000000 &&
    Schedule(MsbFirst, b, 2) == 0x00000000 && Schedule(MsbFirst, b, 3) == 0x00000000 &&
    Schedule(MsbFirst, b, 4) == 0x00000000 && Schedule(MsbFirst, b, 5) == 0x00000000 &&
    Schedule(MsbFirst, b, 6) == 0x00000000 && Schedule(MsbFirst, b, 7) == 0x00000000 &&
    Schedule(MsbFirst, b, 8) == 0x00000000 && Schedule(MsbFirst, b, 9) == 0x00000000 &&
    Schedule(MsbFirst, b, 10) == 0x00000000 && Schedule(MsbFirst, b, 11) == 0x00000000 &&
    Schedule(MsbFirst, b, 12) == 0x00000000 && Schedule(MsbFirst, b, 13) == 0x00000000 &&
    Schedule(MsbFirst, b, 14) == 0x00000000 && Schedule(MsbFirst, b, 15) == 0x00000018
  }

  predicate Words1(b: seq<Byte>)
    requires |b| == BLOCK_SIZE
  {
    Schedule(MsbFirst, b, 16) == 0xc2c4c700 && Schedule(MsbFirst, b, 17) == 0x00000000 &&
    Schedule(MsbFirst, b, 18) == 0x00000030 && Schedule(MsbFirst, b, 19) == 0x85898e01 &&
    Schedule(MsbFirst, b, 20) == 0x00000000 && Schedule(MsbFirst, b, 21) == 0x00000060 &&
    Schedule(MsbFirst, b, 22) == 0x0b131c03 && Schedule(MsbFirst, b, 23) == 0x00000030 &&
    Schedule(MsbFirst, b, 24) == 0x85898ec1 && Schedule(MsbFirst, b, 25) == 0x16263806 &&
    Schedule(MsbFirst, b, 26) == 0x00000000 && Schedule(MsbFirst, b, 27) == 0x00000180 &&
    Schedule(MsbFirst, b, 28) == 0x2c4c700c && Schedule(MsbFirst, b, 29) == 0x000000f0 &&
    Schedule(MsbFirst, b, 30) == 0x93afb507 && Schedule(MsbFirst, b, 31) == 0x5898e048
  }

  predicate Words2(b: seq<Byte>)
    requires |b| == BLOCK_SIZE
  {
    Schedule(MsbFirst, b, 32) == 0x8e9a9202 && Schedule(MsbFirst, b, 33) == 0x00000600 &&
    Schedule(MsbFirst, b, 34) == 0xb131c0f0 && Schedule(MsbFirst, b, 35) == 0x16263bc6 &&
    Schedule(MsbFirst, b, 36) == 0x4ebed41e && Schedule(MsbFirst, b, 37) == 0x626380a1 &&
    Schedule(MsbFirst, b, 38) == 0x16263806 && Schedule(MsbFirst, b, 39) == 0x000018c0 &&
    Schedule(MsbFirst, b, 40) == 0xd2e138c4 && Schedule(MsbFirst, b, 41) == 0x00000f00 &&
    Schedule(MsbFirst, b, 42) == 0x3afb5079 && Schedule(MsbFirst, b, 43) == 0x898e04e5 &&
    Schedule(MsbFirst, b, 44) == 0xe2ba3c2b && Schedule(MsbFirst, b, 45) == 0x000060c0 &&
    Schedule(MsbFirst, b, 46) == 0x053a37cd && Schedule(MsbFirst, b, 47) == 0x74458547
  }

  predicate Words3(b: seq<Byte>)
    requires |b| == BLOCK_SIZE
  {
    Schedule(MsbFirst, b, 48) == 0xda9415ed && Schedule(MsbFirst, b, 49) == 0x26380a16 &&
    Schedule(MsbFirst, b, 50) == 0x626383a1 && Schedule(MsbFirst, b, 51) == 0x4ebf54de &&
    Schedule(MsbFirst, b, 52) == 0x3835b44b && Schedule(MsbFirst, b, 53) == 0x0000f600 &&
    Schedule(MsbFirst, b, 54) == 0x1e84c7a3 && Schedule(MsbFirst, b, 55) == 0x98e04d98 &&
    Schedule(MsbFirst, b, 56) == 0x651d16a0 && Schedule(MsbFirst, b, 57) == 0x62658ca1 &&
    Schedule(MsbFirst, b, 58) == 0x458544d6 && Schedule(MsbFirst, b, 59) == 0x44584cb7 &&
    Schedule(MsbFirst, b, 60) == 0x7ba06619 && Schedule(MsbFirst, b, 61) == 0x6380aea2 &&
    Schedule(MsbFirst, b, 62) == 0x0ae55269 && Schedule(MsbFirst, b, 63) == 0x627b49a1
  }

  predicate Words4(b: seq<Byte>)
    requires |b| == BLOCK_SIZE
  {
    Schedule(MsbFirst, b, 64) == 0x7cd45c9d && Schedule(MsbFirst, b, 65) == 0x000f0000 &&
    Schedule(MsbFirst, b, 66) == 0xfb50753a && Schedule(MsbFirst, b, 67) == 0xec6765e8 &&
    Schedule(MsbFirst, b, 68) == 0xba3c2be2 && Schedule(MsbFirst, b, 69) == 0x0060c000 &&
    Schedule(MsbFirst, b, 70) == 0x3a37cd05 && Schedule(MsbFirst, b, 71) == 0x458546f4 &&
    Schedule(MsbFirst, b, 72) == 0xb8599dd6 && Schedule(MsbFirst, b, 73) == 0x380a1a26 &&
    Schedule(MsbFirst, b, 74) == 0x01e02203 && Schedule(MsbFirst, b, 75) == 0xe7cc3456 &&
    Schedule(MsbFirst, b, 76) == 0xe6e60b69 && Schedule(MsbFirst, b, 77) == 0x00f60a00 &&
    Schedule(MsbFirst, b, 78) == 0x5795ef4f && Schedule(MsbFirst, b, 79) == 0x822e0879
  }

  lemma Schedule1(b: seq<Byte>)
    requires |b| == BLOCK_SIZE && Words0(b)
    ensures Words1(b)
  {
    hide Schedule;
    Next(b, 16, 0x00000000, 0x00000000, 0x00000000, 0x61626380, 0xc2c4c700);
    Next(b, 17, 0x00000000, 0x00000000, 0x00000000, 0x00000000, 0x00000000);
    Next(b, 18, 0x00000018, 0x00000000, 0x00000000, 0x00000000, 0x00000030);
    Next(b, 19, 0xc2c4c700, 0x00000000, 0x00000000, 0x00000000, 0x85898e01);
    Next(b, 20, 0x00000000, 0x00000000, 0x00000000, 0x00000000, 0x00000000);
    Next(b, 21, 0x00000030, 0x00000000, 0x00000000, 0x00000000, 0x00000060);
    Next(b, 22, 0x85898e01, 0x00000000, 0x00000000, 0x00000000, 0x0b131c03);
    Next(b, 23, 0x00000000, 0x00000018, 0x00000000, 0x00000000, 0x00000030);
    Next(b, 24, 0x00000060, 0xc2c4c700, 0x00000000, 0x00000000, 0x85898ec1);
    Next(b, 25, 0x0b131c03, 0x00000000, 0x00000000, 0x00000000, 0x16263806);
    Next(b, 26, 0x00000030, 0x00000030, 0x00000000, 0x00000000, 0x00000000);
    Next(b, 27, 0x85898ec1, 0x85898e01, 0x00000000, 0x00000000, 0x00000180);
    Next(b, 28, 0x16263806, 0x00000000, 0x00000000, 0x00000000, 0x2c4c700c);
    Next(b, 29, 0x00000000, 0x00000060, 0x00000018, 0x00000000, 0x000000f0);
    Next(b, 30, 0x00000180, 0x0b131c03, 0xc2c4c700, 0x00000000, 0x93afb507);
    Next(b, 31, 0x2c4c700c, 0x00000030, 0x00000000, 0x00000018, 0x5898e048);
  }

  lemma Schedule2(b: seq<Byte>)
    requires |b| == BLOCK_SIZE && Words1(b)
    ensures Words2(b)
  {
    hide Schedule;
    Next(b, 32, 0x000000f0, 0x85898ec1, 0x00000030, 0xc2c4c700, 0x8e9a9202);
    Next(b, 33, 0x93afb507, 0x16263806, 0x85898e01, 0x00000000, 0x00000600);
    Next(b, 34, 0x5898e048, 0x00000000, 0x00000000, 0x00000030, 0xb131c0f0);
    Next(b, 35, 0x8e9a9202, 0x00000180, 0x00000060, 0x85898e01, 0x16263bc6);
    Next(b, 36, 0x00000600, 0x2c4c700c, 0x0b131c03, 0x00000000, 0x4ebed41e);
    Next(b, 37, 0xb131c0f0, 0x000000f0, 0x00000030, 0x00000060, 0x626380a1);
    Next(b, 38, 0x16263bc6, 0x93afb507, 0x85898ec1, 0x0b131c03, 0x16263806);
    Next(b, 39, 0x4ebed41e, 0x5898e048, 0x16263806, 0x00000030, 0x000018c0);
    Next(b, 40, 0x626380a1, 0x8e9a9202, 0x00000000, 0x85898ec1, 0xd2e138c4);
    Next(b, 41, 0x16263806, 0x00000600, 0x00000180, 0x16263806, 0x00000f00);
    Next(b, 42, 0x000018c0, 0xb131c0f0, 0x2c4c700c, 0x00000000, 0x3afb5079);
    Next(b, 43, 0xd2e138c4, 0x16263bc6, 0x000000f0, 0x00000180, 0x898e04e5);
    Next(b, 44, 0x00000f00, 0x4ebed41e, 0x93afb507, 0x2c4c700c, 0xe2ba3c2b);
    Next(b, 45, 0x3afb5079, 0x626380a1, 0x5898e048, 0x000000f0, 0x000060c0);
    Next(b, 46, 0x898e04e5, 0x16263806, 0x8e9a9202, 0x93afb507, 0x053a37cd);
    Next(b, 47, 0xe2ba3c2b, 0x000018c0, 0x00000600, 0x5898e048, 0x74458547);
  }

  lemma Schedule3(b: seq<Byte>)
    requires |b| == BLOCK_SIZE && Words2(b)
    ensures Words3(b)
  {
    hide Schedule;
    Next(b, 48, 0x000060c0, 0xd2e138c4, 0xb131c0f0, 0x8e9a9202, 0xda9415ed);
    Next(b, 49, 0x053a37cd, 0x00000f00, 0x16263bc6, 0x00000600, 0x26380a16);
    Next(b, 50, 0x74458547, 0x3afb5079, 0x4ebed41e, 0xb131c0f0, 0x626383a1);
    Next(b, 51, 0xda9415ed, 0x898e04e5, 0x626380a1, 0x16263bc6, 0x4ebf54de);
    Next(b, 52, 0x26380a16, 0xe2ba3c2b, 0x16263806, 0x4ebed41e, 0x3835b44b);
    Next(b, 53, 0x626383a1, 0x000060c0, 0x000018c0, 0x626380a1, 0x0000f600);
    Next(b, 54, 0x4ebf54de, 0x053a37cd, 0xd2e138c4, 0x16263806, 0x1e84c7a3);
    Next(b, 55, 0x3835b44b, 0x74458547, 0x00000f00, 0x000018c0, 0x98e04d98);
    Next(b, 56, 0x0000f600, 0xda9415ed, 0x3afb5079, 0xd2e138c4, 0x651d16a0);
    Next(b, 57, 0x1e84c7a3, 0x26380a16, 0x898e04e5, 0x00000f00, 0x62658ca1);
    Next(b, 58, 0x98e04d98, 0x626383a1, 0xe2ba3c2b, 0x3afb5079, 0x458544d6);
    Next(b, 59, 0x651d16a0, 0x4ebf54de, 0x000060c0, 0x898e04e5, 0x44584cb7);
    Next(b, 60, 0x62658ca1, 0x3835b44b, 0x053a37cd, 0xe2ba3c2b, 0x7ba06619);
    Next(b, 61, 0x458544d6, 0x0000f600, 0x74458547, 0x000060c0, 0x6380aea2);
    Next(b, 62, 0x44584cb7, 0x1e84c7a3, 0xda9415ed, 0x053a37cd, 0x0ae55269);
    Next(b, 63, 0x7ba06619, 0x98e04d98, 0x26380a16, 0x74458547, 0x627b49a1);
  }

  lemma Schedule4(b: seq<Byte>)
    requires |b| == BLOCK_SIZE && Words3(b)
    ensures Words4(b)
  {
    hide Schedule;
    Next(b, 64, 0x6380aea2, 0x651d16a0, 0x626383a1, 0xda9415ed, 0x7cd45c9d);
    Next(b, 65, 0x0ae55269, 0x62658ca1, 0x4ebf54de, 0x26380a16, 0x000f0000);
    Next(b, 66, 0x627b49a1, 0x458544d6, 0x3835b44b, 0x626383a1, 0xfb50753a);
    Next(b, 67, 0x7cd45c9d, 0x44584cb7, 0x0000f600, 0x4ebf54de, 0xec6765e8);
    Next(b, 68, 0x000f0000, 0x7ba06619, 0x1e84c7a3, 0x3835b44b, 0xba3c2be2);
    Next(b, 69, 0xfb50753a, 0x6380aea2, 0x98e04d98, 0x0000f600, 0x0060c000);
    Next(b, 70, 0xec6765e8, 0x0ae55269, 0x651d16a0, 0x1e84c7a3, 0x3a37cd05);
    Next(b, 71, 0xba3c2be2, 0x627b49a1, 0x62658ca1, 0x98e04d98, 0x458546f4);
    Next(b, 72, 0x0060c000, 0x7cd45c9d, 0x458544d6, 0x651d16a0, 0xb8599dd6);
    Next(b, 73, 0x3a37cd05, 0x000f0000, 0x44584cb7, 0x62658ca1, 0x380a1a26);
    Next(b, 74, 0x458546f4, 0xfb50753a, 0x7ba06619, 0x458544d6, 0x01e02203);
    Next(b, 75, 0xb8599dd6, 0xec6765e8, 0x6380aea2, 0x44584cb7, 0xe7cc3456);
    Next(b, 76, 0x380a1a26, 0xba3c2be2, 0x0ae55269, 0x7ba06619, 0xe6e60b69);
    Next(b, 77, 0x01e02203, 0x0060c000, 0x627b49a1, 0x6380aea2, 0x00f60a00);
    Next(b, 78, 0xe7cc3456, 0x3a37cd05, 0x7cd45c9d, 0x0ae55269, 0x5795ef4f);
    Next(b, 79, 0xe6e60b69, 0x458546f4, 0x000f0000, 0x627b49a1, 0x822e0879);
  }

  lemma Rounds0(w: seq<Word>)
    requires |w| == 80 && Rounds(w, IV, 0) == Chain(0x67452301, 0xefcdab89, 0x98badcfe, 0x10325476, 0xc3d2e1f0)
    requires w[0] == 0x61626380 && w[1] == 0x00000000 && w[2] == 0x00000000 &&
      w[3] == 0x00000000 && w[4] == 0x00000000 && w[5] == 0x00000000 &&
      w[6] == 0x00000000 && w[7] == 0x00000000 && w[8] == 0x00000000 &&
      w[9] == 0x00000000
    ensures Rounds(w, IV, 10) == Chain(0x8351f929, 0x4b6ae328, 0x27a301f5, 0x664f8c30, 0x0ff1f290)
  {
    hide Rounds;
    Turn(w, 0, Chain(0x67452301, 0xefcdab89, 0x98badcfe, 0x10325476, 0xc3d2e1f0), 0x61626380,
         Chain(0x0116fc33, 0x67452301, 0x7bf36ae2, 0x98badcfe, 0x10325476));
    Turn(w, 1, Chain(0x0116fc33, 0x67452301, 0x7bf36ae2, 0x98badcfe, 0x10325476), 0x00000000,
         Chain(0x8990536d, 0x0116fc33, 0x59d148c0, 0x7bf36ae2, 0x98badcfe));
    Turn(w, 2, Chain(0x8990536d, 0x0116fc33, 0x59d148c0, 0x7bf36ae2, 0x98badcfe), 0x00000000,
         Chain(0xa1390f08, 0x8990536d, 0xc045bf0c, 0x59d148c0, 0x7bf36ae2));
    Turn(w, 3, Chain(0xa1390f08, 0x8990536d, 0xc045bf0c, 0x59d148c0, 0x7bf36ae2), 0x00000000,
         Chain(0xcdd8e11b, 0xa1390f08, 0x626414db, 0xc045bf0c, 0x59d148c0));
    Turn(w, 4, Chain(0xcdd8e11b, 0xa1390f08, 0x626414db, 0xc045bf0c, 0x59d148c0), 0x00000000,
         Chain(0xcfd499de, 0xcdd8e11b, 0x284e43c2, 0x626414db, 0xc045bf0c));
    Turn(w, 5, Chain(0xcfd499de, 0xcdd8e11b, 0x284e43c2, 0x626414db, 0xc045bf0c), 0x00000000,
         Chain(0x3fc7ca40, 0xcfd499de, 0xf3763846, 0x284e43c2, 0x626414db));
    Turn(w, 6, Chain(0x3fc7ca40, 0xcfd499de, 0xf3763846, 0x284e43c2, 0x626414db), 0x00000000,
         Chain(0x993e30c1, 0x3fc7ca40, 0xb3f52677, 0xf3763846, 0x284e43c2));
    Turn(w, 7, Chain(0x993e30c1, 0x3fc7ca40, 0xb3f52677, 0xf3763846, 0x284e43c2), 0x00000000,
         Chain(0x9e8c07d4, 0x993e30c1, 0x0ff1f290, 0xb3f52677, 0xf3763846));
    Turn(w, 8, Chain(0x9e8c07d4, 0x993e30c1, 0x0ff1f290, 0xb3f52677, 0xf3763846), 0x00000000,
         Chain(0x4b6ae328, 0x9e8c07d4, 0x664f8c30, 0x0ff1f290, 0xb3f52677));
    Turn(w, 9, Chain(0x4b6ae328, 0x9e8c07d4, 0x664f8c30, 0x0ff1f290, 0xb3f52677), 0x00000000,
         Chain(0x8351f929, 0x4b6ae328, 0x27a301f5, 0x664f8c30, 0x0ff1f290));
  }

  lemma Rounds1(w: seq<Word>)
    requires |w| == 80 && Rounds(w, IV, 10) == Chain(0x8351f929, 0x4b6ae328, 0x27a301f5, 0x664f8c30, 0x0ff1f290)
    requires w[10] == 0x00000000 && w[11] == 0x00000000 && w[12] == 0x00000000 &&
      w[13] == 0x00000000 && w[14] == 0x00000000 && w[15] == 0x00000018 &&
      w[16] == 0xc2c4c700 && w[17] == 0x00000000 && w[18] == 0x00000030 &&
      w[19] == 0x85898e01
    ensures Rounds(w, IV, 20) == Chain(0xfd9e1d7d, 0xdc64901d, 0x20aa99ca, 0xd3a49608, 0xc82f758b)
  {
    hide Rounds;
    Turn(w, 10, Chain(0x8351f929, 0x4b6ae328, 0x27a301f5, 0x664f8c30, 0x0ff1f290), 0x00000000,
         Chain(0xfbda9e89, 0x8351f929, 0x12dab8ca, 0x27a301f5, 0x664f8c30));
    Turn(w, 11, Chain(0xfbda9e89, 0x8351f929, 0x12dab8ca, 0x27a301f5, 0x664f8c30), 0x00000000,
         Chain(0x63188fe4, 0xfbda9e89, 0x60d47e4a, 0x12dab8ca, 0x27a301f5));
    Turn(w, 12, Chain(0x63188fe4, 0xfbda9e89, 0x60d47e4a, 0x12dab8ca, 0x27a301f5), 0x00000000,
         Chain(0x4607b664, 0x63188fe4, 0x7ef6a7a2, 0x60d47e4a, 0x12dab8ca));
    Turn(w, 13, Chain(0x4607b664, 0x63188fe4, 0x7ef6a7a2, 0x60d47e4a, 0x12dab8ca), 0x00000000,
         Chain(0x9128f695, 0x4607b664, 0x18c623f9, 0x7ef6a7a2, 0x60d47e4a));
    Turn(w, 14, Chain(0x9128f695, 0x4607b664, 0x18c623f9, 0x7ef6a7a2, 0x60d47e4a), 0x00000000,
         Chain(0x196bee77, 0x9128f695, 0x1181ed99, 0x18c623f9, 0x7ef6a7a2));
    Turn(w, 15, Chain(0x196bee77, 0x9128f695, 0x1181ed99, 0x18c623f9, 0x7ef6a7a2), 0x00000018,
         Chain(0x20bdd62f, 0x196bee77, 0x644a3da5, 0x1181ed99, 0x18c623f9));
    Turn(w, 16, Chain(0x20bdd62f, 0x196bee77, 0x644a3da5, 0x1181ed99, 0x18c623f9), 0xc2c4c700,
         Chain(0x4e925823, 0x20bdd62f, 0xc65afb9d, 0x644a3da5, 0x1181ed99));
    Turn(w, 17, Chain(0x4e925823, 0x20bdd62f, 0xc65afb9d, 0x644a3da5, 0x1181ed99), 0x00000000,
         Chain(0x82aa6728, 0x4e925823, 0xc82f758b, 0xc65afb9d, 0x644a3da5));
    Turn(w, 18, Chain(0x82aa6728, 0x4e925823, 0xc82f758b, 0xc65afb9d, 0x644a3da5), 0x00000030,
         Chain(0xdc64901d, 0x82aa6728, 0xd3a49608, 0xc82f758b, 0xc65afb9d));
    Turn(w, 19, Chain(0xdc64901d, 0x82aa6728, 0xd3a49608, 0xc82f758b, 0xc65afb9d), 0x85898e01,
         Chain(0xfd9e1d7d, 0xdc64901d, 0x20aa99ca, 0xd3a49608, 0xc82f758b));
  }

  lemma Rounds2(w: seq<Word>)
    requires |w| == 80 && Rounds(w, IV, 20) == Chain(0xfd9e1d7d, 0xdc64901d, 0x20aa99ca, 0xd3a49608, 0xc82f758b)
    requires w[20] == 0x00000000 && w[21] == 0x00000060 && w[22] == 0x0b131c03 &&
      w[23] == 0x00000030 && w[24] == 0x85898ec1 && w[25] == 0x16263806 &&
      w[26] == 0x00000000 && w[27] == 0x00000180 && w[28] == 0x2c4c700c &&
      w[29] == 0x000000f0
    ensures Rounds(w, IV, 30) == Chain(0xc5fbaf5d, 0x8370b52e, 0xd2aa1365, 0x6f8d7ef5, 0x12104ee9)
  {
    hide Rounds;
    Turn(w, 20, Chain(0xfd9e1d7d, 0xdc64901d, 0x20aa99ca, 0xd3a49608, 0xc82f758b), 0x00000000,
         Chain(0x1a37b0ca, 0xfd9e1d7d, 0x77192407, 0x20aa99ca, 0xd3a49608));
    Turn(w, 21, Chain(0x1a37b0ca, 0xfd9e1d7d, 0x77192407, 0x20aa99ca, 0xd3a49608), 0x00000060,
         Chain(0x33a23bfc, 0x1a37b0ca, 0x7f67875f, 0x77192407, 0x20aa99ca));
    Turn(w, 22, Chain(0x33a23bfc, 0x1a37b0ca, 0x7f67875f, 0x77192407, 0x20aa99ca), 0x0b131c03,
         Chain(0x21283486, 0x33a23bfc, 0x868dec32, 0x7f67875f, 0x77192407));
    Turn(w, 23, Chain(0x21283486, 0x33a23bfc, 0x868dec32, 0x7f67875f, 0x77192407), 0x00000030,
         Chain(0xd541f12d, 0x21283486, 0x0ce88eff, 0x868dec32, 0x7f67875f));
    Turn(w, 24, Chain(0xd541f12d, 0x21283486, 0x0ce88eff, 0x868dec32, 0x7f67875f), 0x85898ec1,
         Chain(0xc7567dc6, 0xd541f12d, 0x884a0d21, 0x0ce88eff, 0x868dec32));
    Turn(w, 25, Chain(0xc7567dc6, 0xd541f12d, 0x884a0d21, 0x0ce88eff, 0x868dec32), 0x16263806,
         Chain(0x48413ba4, 0xc7567dc6, 0x75507c4b, 0x884a0d21, 0x0ce88eff));
    Turn(w, 26, Chain(0x48413ba4, 0xc7567dc6, 0x75507c4b, 0x884a0d21, 0x0ce88eff), 0x00000000,
         Chain(0xbe35fbd5, 0x48413ba4, 0xb1d59f71, 0x75507c4b, 0x884a0d21));
    Turn(w, 27, Chain(0xbe35fbd5, 0x48413ba4, 0xb1d59f71, 0x75507c4b, 0x884a0d21), 0x00000180,
         Chain(0x4aa84d97, 0xbe35fbd5, 0x12104ee9, 0xb1d59f71, 0x75507c4b));
    Turn(w, 28, Chain(0x4aa84d97, 0xbe35fbd5, 0x12104ee9, 0xb1d59f71, 0x75507c4b), 0x2c4c700c,
         Chain(0x8370b52e, 0x4aa84d97, 0x6f8d7ef5, 0x12104ee9, 0xb1d59f71));
    Turn(w, 29, Chain(0x8370b52e, 0x4aa84d97, 0x6f8d7ef5, 0x12104ee9, 0xb1d59f71), 0x000000f0,
         Chain(0xc5fbaf5d, 0x8370b52e, 0xd2aa1365, 0x6f8d7ef5, 0x12104ee9));
  }

  lemma Rounds3(w: seq<Word>)
    requires |w| == 80 && Rounds(w, IV, 30) == Chain(0xc5fbaf5d, 0x8370b52e, 0xd2aa1365, 0x6f8d7ef5, 0x12104ee9)
    requires w[30] == 0x93afb507 && w[31] == 0x5898e048 && w[32] == 0x8e9a9202 &&
      w[33] == 0x00000600 && w[34] == 0xb131c0f0 && w[35] == 0x16263bc6 &&
      w[36] == 0x4ebed41e && w[37] == 0x626380a1 && w[38] == 0x16263806 &&
      w[39] == 0x000018c0
    ensures Rounds(w, IV, 40) == Chain(0x32de1cba, 0x4c986405, 0xf718e5cf, 0x03d447f6, 0xf72eec32)
  {
    hide Rounds;
    Turn(w, 30, Chain(0xc5fbaf5d, 0x8370b52e, 0xd2aa1365, 0x6f8d7ef5, 0x12104ee9), 0x93afb507,
         Chain(0x1267b407, 0xc5fbaf5d, 0xa0dc2d4b, 0xd2aa1365, 0x6f8d7ef5));
    Turn(w, 31, Chain(0x1267b407, 0xc5fbaf5d, 0xa0dc2d4b, 0xd2aa1365, 0x6f8d7ef5), 0x5898e048,
         Chain(0x3b845d33, 0x1267b407, 0x717eebd7, 0xa0dc2d4b, 0xd2aa1365));
    Turn(w, 32, Chain(0x3b845d33, 0x1267b407, 0x717eebd7, 0xa0dc2d4b, 0xd2aa1365), 0x8e9a9202,
         Chain(0x046faa0a, 0x3b845d33, 0xc499ed01, 0x717eebd7, 0xa0dc2d4b));
    Turn(w, 33, Chain(0x046faa0a, 0x3b845d33, 0xc499ed01, 0x717eebd7, 0xa0dc2d4b), 0x00000600,
         Chain(0x2c0ebc11, 0x046faa0a, 0xcee1174c, 0xc499ed01, 0x717eebd7));
    Turn(w, 34, Chain(0x2c0ebc11, 0x046faa0a, 0xcee1174c, 0xc499ed01, 0x717eebd7), 0xb131c0f0,
         Chain(0x21796ad4, 0x2c0ebc11, 0x811bea82, 0xcee1174c, 0xc499ed01));
    Turn(w, 35, Chain(0x21796ad4, 0x2c0ebc11, 0x811bea82, 0xcee1174c, 0xc499ed01), 0x16263bc6,
         Chain(0xdcbbb0cb, 0x21796ad4, 0x4b03af04, 0x811bea82, 0xcee1174c));
    Turn(w, 36, Chain(0xdcbbb0cb, 0x21796ad4, 0x4b03af04, 0x811bea82, 0xcee1174c), 0x4ebed41e,
         Chain(0x0f511fd8, 0xdcbbb0cb, 0x085e5ab5, 0x4b03af04, 0x811bea82));
    Turn(w, 37, Chain(0x0f511fd8, 0xdcbbb0cb, 0x085e5ab5, 0x4b03af04, 0x811bea82), 0x626380a1,
         Chain(0xdc63973f, 0x0f511fd8, 0xf72eec32, 0x085e5ab5, 0x4b03af04));
    Turn(w, 38, Chain(0xdc63973f, 0x0f511fd8, 0xf72eec32, 0x085e5ab5, 0x4b03af04), 0x16263806,
         Chain(0x4c986405, 0xdc63973f, 0x03d447f6, 0xf72eec32, 0x085e5ab5));
    Turn(w, 39, Chain(0x4c986405, 0xdc63973f, 0x03d447f6, 0xf72eec32, 0x085e5ab5), 0x000018c0,
         Chain(0x32de1cba, 0x4c986405, 0xf718e5cf, 0x03d447f6, 0xf72eec32));
  }

  lemma Rounds4(w: seq<Word>)
    requires |w| == 80 && Rounds(w, IV, 40) == Chain(0x32de1cba, 0x4c986405, 0xf718e5cf, 0x03d447f6, 0xf72eec32)
    requires w[40] == 0xd2e138c4 && w[41] == 0x00000f00 && w[42] == 0x3afb5079 &&
      w[43] == 0x898e04e5 && w[44] == 0xe2ba3c2b && w[45] == 0x000060c0 &&
      w[46] == 0x053a37cd && w[47] == 0x74458547 && w[48] == 0xda9415ed &&
      w[49] == 0x26380a16
    ensures Rounds(w, IV, 50) == Chain(0x120731c5, 0xbaf39337, 0xafab40b2, 0x2806e11b, 0x8714787c)
  {
    hide Rounds;
    Turn(w, 40, Chain(0x32de1cba, 0x4c986405, 0xf718e5cf, 0x03d447f6, 0xf72eec32), 0xd2e138c4,
         Chain(0xfc87dedf, 0x32de1cba, 0x53261901, 0xf718e5cf, 0x03d447f6));
    Turn(w, 41, Chain(0xfc87dedf, 0x32de1cba, 0x53261901, 0xf718e5cf, 0x03d447f6), 0x00000f00,
         Chain(0x970a0d5c, 0xfc87dedf, 0x8cb7872e, 0x53261901, 0xf718e5cf));
    Turn(w, 42, Chain(0x970a0d5c, 0xfc87dedf, 0x8cb7872e, 0x53261901, 0xf718e5cf), 0x3afb5079,
         Chain(0x7f193dc5, 0x970a0d5c, 0xff21f7b7, 0x8cb7872e, 0x53261901));
    Turn(w, 43, Chain(0x7f193dc5, 0x970a0d5c, 0xff21f7b7, 0x8cb7872e, 0x53261901), 0x898e04e5,
         Chain(0xee1b1aaf, 0x7f193dc5, 0x25c28357, 0xff21f7b7, 0x8cb7872e));
    Turn(w, 44, Chain(0xee1b1aaf, 0x7f193dc5, 0x25c28357, 0xff21f7b7, 0x8cb7872e), 0xe2ba3c2b,
         Chain(0x40f28e09, 0xee1b1aaf, 0x5fc64f71, 0x25c28357, 0xff21f7b7));
    Turn(w, 45, Chain(0x40f28e09, 0xee1b1aaf, 0x5fc64f71, 0x25c28357, 0xff21f7b7), 0x000060c0,
         Chain(0x1c51e1f2, 0x40f28e09, 0xfb86c6ab, 0x5fc64f71, 0x25c28357));
    Turn(w, 46, Chain(0x1c51e1f2, 0x40f28e09, 0xfb86c6ab, 0x5fc64f71, 0x25c28357), 0x053a37cd,
         Chain(0xa01b846c, 0x1c51e1f2, 0x503ca382, 0xfb86c6ab, 0x5fc64f71));
    Turn(w, 47, Chain(0xa01b846c, 0x1c51e1f2, 0x503ca382, 0xfb86c6ab, 0x5fc64f71), 0x74458547,
         Chain(0xbead02ca, 0xa01b846c, 0x8714787c, 0x503ca382, 0xfb86c6ab));
    Turn(w, 48, Chain(0xbead02ca, 0xa01b846c, 0x8714787c, 0x503ca382, 0xfb86c6ab), 0xda9415ed,
         Chain(0xbaf39337, 0xbead02ca, 0x2806e11b, 0x8714787c, 0x503ca382));
    Turn(w, 49, Chain(0xbaf39337, 0xbead02ca, 0x2806e11b, 0x8714787c, 0x503ca382), 0x26380a16,
         Chain(0x120731c5, 0xbaf39337, 0xafab40b2, 0x2806e11b, 0x8714787c));
  }

  lemma Rounds5(w: seq<Word>)
    requires |w| == 80 && Rounds(w, IV, 50) == Chain(0x120731c5, 0xbaf39337, 0xafab40b2, 0x2806e11b, 0x8714787c)
    requires w[50] == 0x626383a1 && w[51] == 0x4ebf54de && w[52] == 0x3835b44b &&
      w[53] == 0x0000f600 && w[54] == 0x1e84c7a3 && w[55] == 0x98e04d98 &&
      w[56] == 0x651d16a0 && w[57] == 0x62658ca1 && w[58] == 0x458544d6 &&
      w[59] == 0x44584cb7
    ensures Rounds(w, IV, 60) == Chain(0x3f52de5a, 0x09d785fd, 0x3498bfd4, 0xf211824f, 0xd79915ab)
  {
    hide Rounds;
    Turn(w, 50, Chain(0x120731c5, 0xbaf39337, 0xafab40b2, 0x2806e11b, 0x8714787c), 0x626383a1,
         Chain(0x641db2ce, 0x120731c5, 0xeebce4cd, 0xafab40b2, 0x2806e11b));
    Turn(w, 51, Chain(0x641db2ce, 0x120731c5, 0xeebce4cd, 0xafab40b2, 0x2806e11b), 0x4ebf54de,
         Chain(0x3847ad66, 0x641db2ce, 0x4481cc71, 0xeebce4cd, 0xafab40b2));
    Turn(w, 52, Chain(0x3847ad66, 0x641db2ce, 0x4481cc71, 0xeebce4cd, 0xafab40b2), 0x3835b44b,
         Chain(0xe490436d, 0x3847ad66, 0x99076cb3, 0x4481cc71, 0xeebce4cd));
    Turn(w, 53, Chain(0xe490436d, 0x3847ad66, 0x99076cb3, 0x4481cc71, 0xeebce4cd), 0x0000f600,
         Chain(0x27e9f1d8, 0xe490436d, 0x8e11eb59, 0x99076cb3, 0x4481cc71));
    Turn(w, 54, Chain(0x27e9f1d8, 0xe490436d, 0x8e11eb59, 0x99076cb3, 0x4481cc71), 0x1e84c7a3,
         Chain(0x7b71f76d, 0x27e9f1d8, 0x792410db, 0x8e11eb59, 0x99076cb3));
    Turn(w, 55, Chain(0x7b71f76d, 0x27e9f1d8, 0x792410db, 0x8e11eb59, 0x99076cb3), 0x98e04d98,
         Chain(0x5e6456af, 0x7b71f76d, 0x09fa7c76, 0x792410db, 0x8e11eb59));
    Turn(w, 56, Chain(0x5e6456af, 0x7b71f76d, 0x09fa7c76, 0x792410db, 0x8e11eb59), 0x651d16a0,
         Chain(0xc846093f, 0x5e6456af, 0x5edc7ddb, 0x09fa7c76, 0x792410db));
    Turn(w, 57, Chain(0xc846093f, 0x5e6456af, 0x5edc7ddb, 0x09fa7c76, 0x792410db), 0x62658ca1,
         Chain(0xd262ff50, 0xc846093f, 0xd79915ab, 0x5edc7ddb, 0x09fa7c76));
    Turn(w, 58, Chain(0xd262ff50, 0xc846093f, 0xd79915ab, 0x5edc7ddb, 0x09fa7c76), 0x458544d6,
         Chain(0x09d785fd, 0xd262ff50, 0xf211824f, 0xd79915ab, 0x5edc7ddb));
    Turn(w, 59, Chain(0x09d785fd, 0xd262ff50, 0xf211824f, 0xd79915ab, 0x5edc7ddb), 0x44584cb7,
         Chain(0x3f52de5a, 0x09d785fd, 0x3498bfd4, 0xf211824f, 0xd79915ab));
  }

  lemma Rounds6(w: seq<Word>)
    requires |w| == 80 && Rounds(w, IV, 60) == Chain(0x3f52de5a, 0x09d785fd, 0x3498bfd4, 0xf211824f, 0xd79915ab)
    requires w[60] == 0x7ba06619 && w[61] == 0x6380aea2 && w[62] == 0x0ae55269 &&
      w[63] == 0x627b49a1 && w[64] == 0x7cd45c9d && w[65] == 0x000f0000 &&
      w[66] == 0xfb50753a && w[67] == 0xec6765e8 && w[68] == 0xba3c2be2 &&
      w[69] == 0x0060c000
    ensures Rounds(w, IV, 70) == Chain(0x3f2588c2, 0x497093c0, 0xde37534a, 0x030f7cad, 0x4405957e)
  {
    hide Rounds;
    Turn(w, 60, Chain(0x3f52de5a, 0x09d785fd, 0x3498bfd4, 0xf211824f, 0xd79915ab), 0x7ba06619,
         Chain(0xd756c147, 0x3f52de5a, 0x4275e17f, 0x3498bfd4, 0xf211824f));
    Turn(w, 61, Chain(0xd756c147, 0x3f52de5a, 0x4275e17f, 0x3498bfd4, 0xf211824f), 0x6380aea2,
         Chain(0x548c9cb2, 0xd756c147, 0x8fd4b796, 0x4275e17f, 0x3498bfd4));
    Turn(w, 62, Chain(0x548c9cb2, 0xd756c147, 0x8fd4b796, 0x4275e17f, 0x3498bfd4), 0x0ae55269,
         Chain(0xb66c020b, 0x548c9cb2, 0xf5d5b051, 0x8fd4b796, 0x4275e17f));
    Turn(w, 63, Chain(0xb66c020b, 0x548c9cb2, 0xf5d5b051, 0x8fd4b796, 0x4275e17f), 0x627b49a1,
         Chain(0x6b61c9e1, 0xb66c020b, 0x9523272c, 0xf5d5b051, 0x8fd4b796));
    Turn(w, 64, Chain(0x6b61c9e1, 0xb66c020b, 0x9523272c, 0xf5d5b051, 0x8fd4b796), 0x7cd45c9d,
         Chain(0x19dfa7ac, 0x6b61c9e1, 0xed9b0082, 0x9523272c, 0xf5d5b051));
    Turn(w, 65, Chain(0x19dfa7ac, 0x6b61c9e1, 0xed9b0082, 0x9523272c, 0xf5d5b051), 0x000f0000,
         Chain(0x101655f9, 0x19dfa7ac, 0x5ad87278, 0xed9b0082, 0x9523272c));
    Turn(w, 66, Chain(0x101655f9, 0x19dfa7ac, 0x5ad87278, 0xed9b0082, 0x9523272c), 0xfb50753a,
         Chain(0x0c3df2b4, 0x101655f9, 0x0677e9eb, 0x5ad87278, 0xed9b0082));
    Turn(w, 67, Chain(0x0c3df2b4, 0x101655f9, 0x0677e9eb, 0x5ad87278, 0xed9b0082), 0xec6765e8,
         Chain(0x78dd4d2b, 0x0c3df2b4, 0x4405957e, 0x0677e9eb, 0x5ad87278));
    Turn(w, 68, Chain(0x78dd4d2b, 0x0c3df2b4, 0x4405957e, 0x0677e9eb, 0x5ad87278), 0xba3c2be2,
         Chain(0x497093c0, 0x78dd4d2b, 0x030f7cad, 0x4405957e, 0x0677e9eb));
    Turn(w, 69, Chain(0x497093c0, 0x78dd4d2b, 0x030f7cad, 0x4405957e, 0x0677e9eb), 0x0060c000,
         Chain(0x3f2588c2, 0x497093c0, 0xde37534a, 0x030f7cad, 0x4405957e));
  }

  lemma Rounds7(w: seq<Word>)
    requires |w| == 80 && Rounds(w, IV, 70) == Chain(0x3f2588c2, 0x497093c0, 0xde37534a, 0x030f7cad, 0x4405957e)
    requires w[70] == 0x3a37cd05 && w[71] == 0x458546f4 && w[72] == 0xb8599dd6 &&
      w[73] == 0x380a1a26 && w[74] == 0x01e02203 && w[75] == 0xe7cc3456 &&
      w[76] == 0xe6e60b69 && w[77] == 0x00f60a00 && w[78] == 0x5795ef4f &&
      w[79] == 0x822e0879
    ensures Rounds(w, IV, 80) == Chain(0x42541b35, 0x5738d5e1, 0x21834873, 0x681e6df6, 0xd8fdf6ad)
  {
    hide Rounds;
    Turn(w, 70, Chain(0x3f2588c2, 0x497093c0, 0xde37534a, 0x030f7cad, 0x4405957e), 0x3a37cd05,
         Chain(0xc199f8c7, 0x3f2588c2, 0x125c24f0, 0xde37534a, 0x030f7cad));
    Turn(w, 71, Chain(0xc199f8c7, 0x3f2588c2, 0x125c24f0, 0xde37534a, 0x030f7cad), 0x458546f4,
         Chain(0x39859de7, 0xc199f8c7, 0x8fc96230, 0x125c24f0, 0xde37534a));
    Turn(w, 72, Chain(0x39859de7, 0xc199f8c7, 0x8fc96230, 0x125c24f0, 0xde37534a), 0xb8599dd6,
         Chain(0xedb42de4, 0x39859de7, 0xf0667e31, 0x8fc96230, 0x125c24f0));
    Turn(w, 73, Chain(0xedb42de4, 0x39859de7, 0xf0667e31, 0x8fc96230, 0x125c24f0), 0x380a1a26,
         Chain(0x11793f6f, 0xedb42de4, 0xce616779, 0xf0667e31, 0x8fc96230));
    Turn(w, 74, Chain(0x11793f6f, 0xedb42de4, 0xce616779, 0xf0667e31, 0x8fc96230), 0x01e02203,
         Chain(0x5ee76897, 0x11793f6f, 0x3b6d0b79, 0xce616779, 0xf0667e31));
    Turn(w, 75, Chain(0x5ee76897, 0x11793f6f, 0x3b6d0b79, 0xce616779, 0xf0667e31), 0xe7cc3456,
         Chain(0x63f7dab7, 0x5ee76897, 0xc45e4fdb, 0x3b6d0b79, 0xce616779));
    Turn(w, 76, Chain(0x63f7dab7, 0x5ee76897, 0xc45e4fdb, 0x3b6d0b79, 0xce616779), 0xe6e60b69,
         Chain(0xa079b7d9, 0x63f7dab7, 0xd7b9da25, 0xc45e4fdb, 0x3b6d0b79));
    Turn(w, 77, Chain(0xa079b7d9, 0x63f7dab7, 0xd7b9da25, 0xc45e4fdb, 0x3b6d0b79), 0x00f60a00,
         Chain(0x860d21cc, 0xa079b7d9, 0xd8fdf6ad, 0xd7b9da25, 0xc45e4fdb));
    Turn(w, 78, Chain(0x860d21cc, 0xa079b7d9, 0xd8fdf6ad, 0xd7b9da25, 0xc45e4fdb), 0x5795ef4f,
         Chain(0x5738d5e1, 0x860d21cc, 0x681e6df6, 0xd8fdf6ad, 0xd7b9da25));
    Turn(w, 79, Chain(0x5738d5e1, 0x860d21cc, 0x681e6df6, 0xd8fdf6ad, 0xd7b9da25), 0x822e0879,
         Chain(0x42541b35, 0x5738d5e1, 0x21834873, 0x681e6df6, 0xd8fdf6ad));
  }

  /** The message padded: 61626380, zeros, and the length 24. */
  predicate IsPadded(b: seq<Byte>) {
    |b| == BLOCK_SIZE && b[0] == 0x61 && b[1] == 0x62 && b[2] == 0x63 && b[3] == 0x80 && b[63] == 24 &&
    forall i :: 4 <= i < 63 ==> b[i] == 0
  }

  lemma LengthBytes()
    ensures BigEndian64(24) == [0, 0, 0, 0, 0, 0, 0, 24]
  {
    assert Octet(0) == 0 && Octet(24) == 24 by { SmallOctets(); }
    hide Octet;
  }

  lemma SmallOctets()
    ensures Octet(0) == 0 && Octet(24) == 24
  {
  }

  lemma Padded()
    ensures IsPadded(Pad(ABC))
  {
    hide BigEndian64;
    LengthBytes();
    assert ZeroCount(3) == 52;
    assert Pad(ABC) == ABC + [0x80] + Zeros(52) + BigEndian64(24);
  }

  lemma WordAt(b: seq<Byte>, t: nat, w: Word)
    requires |b| == BLOCK_SIZE && t < 16 && Pack(b[4*t], b[4*t+1], b[4*t+2], b[4*t+3]) == w
    ensures Schedule(MsbFirst, b, t) == w
  {
  }

  lemma FirstWords(b: seq<Byte>)
    requires IsPadded(b)
    ensures Words0(b)
  {
    hide Schedule;
    for t := 0 to 16
      invariant forall i {:trigger Schedule(MsbFirst, b, i)} :: 0 <= i < t ==>
        Schedule(MsbFirst, b, i) == if i == 0 then 0x61626380 else if i == 15 then 24 else 0
    {
      WordAt(b, t, if t == 0 then 0x61626380 else if t == 15 then 24 else 0);
    }
  }

  lemma AllWords(b: seq<Byte>)
    requires |b| == BLOCK_SIZE && Words0(b)
    ensures Words1(b) && Words2(b) && Words3(b) && Words4(b)
  {
    hide Words0, Words1, Words2, Words3, Words4;
    Schedule1(b);
    Schedule2(b);
    Schedule3(b);
    Schedule4(b);
  }

  lemma AllRounds(b: seq<Byte>)
    requires |b| == BLOCK_SIZE && Words0(b)
    ensures Rounds(Expanded(MsbFirst, b), IV, 80) == Chain(0x42541b35, 0x5738d5e1, 0x21834873, 0x681e6df6, 0xd8fdf6ad)
  {
    AllWords(b);
    hide Rounds, Schedule;
    var w := Expanded(MsbFirst, b);
    assert Rounds(w, IV, 0) == IV by { NoRounds(w); }
    Rounds0(w);
    Rounds1(w);
    Rounds2(w);
    Rounds3(w);
    Rounds4(w);
    Rounds5(w);
    Rounds6(w);
    Rounds7(w);
  }

  lemma NoRounds(w: seq<Word>)
    ensures Rounds(w, IV, 0) == IV
  {
  }

  lemma Added()
    ensures AddChains(IV, Chain(0x42541b35, 0x5738d5e1, 0x21834873, 0x681e6df6, 0xd8fdf6ad))
         == Chain(0xa9993e36, 0x4706816a, 0xba3e2571, 0x7850c26c, 0x9cd0d89d)
    ensures ChainBytes(Chain(0xa9993e36, 0x4706816a, 0xba3e2571, 0x7850c26c, 0x9cd0d89d)) == ABC_DIGEST
  {
  }

  const ABC_DIGEST: seq<Byte> := [
    0xa9, 0x99, 0x3e, 0x36, 0x47, 0x06, 0x81, 0x6a, 0xba, 0x3e,
    0x25, 0x71, 0x78, 0x50, 0xc2, 0x6c, 0x9c, 0xd0, 0xd8, 0x9d ]

  /** SHA-1 of "abc" is a9993e36 4706816a ba3e2571 7850c26c 9cd0d89d. */
  lemma AbcDigest()
    ensures Sha1(ABC) == ABC_DIGEST
  {
    hide IsPadded, Words0, Pad, Absorb, AddChains, ChainBytes, Expanded, Rounds;
    var b := Pad(ABC);
    Padded();
    assert |b| == BLOCK_SIZE by { Length(b); }
    FirstWords(b);
    AllRounds(b);
    Added();
    OneBlock(b);
  }

  lemma Length(b: seq<Byte>)
    requires IsPadded(b)
    ensures |b| == BLOCK_SIZE
  {
  }

  lemma OneBlock(b: seq<Byte>)
    requires |b| == BLOCK_SIZE
    ensures Absorb(MsbFirst, b) == AddChains(IV, Rounds(Expanded(MsbFirst, b), IV, 80))
  {
    hide Expanded, Rounds, AddChains;
    assert b[..0] == [] && b[0..] == b;
  }

}