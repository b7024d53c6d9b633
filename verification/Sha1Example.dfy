/** The first test vector of the hash: the digest of "abc". */
module Sha1Example {
  import opened Sha1Spec

  const ABC: seq<Byte> := [0x61, 0x62, 0x63]

  /** The words of the padded message. */
  predicate IsBlock(m: seq<Word>) {
    |m| == 16 && m[0] == 0x61626380 && m[15] == 0x18 && forall i :: 1 <= i < 15 ==> m[i] == 0
  }

  lemma LengthOfAbc()
    ensures LengthBytes(24) == [0, 0, 0, 0, 0, 0, 0, 24]
  {
    hide Pow256, LengthBytes;
    forall i | 0 <= i < 8 ensures LengthBytes(24)[i] == if i < 7 then 0 else 24 {
      LengthByte(i);
    }
  }

  lemma LengthByte(i: nat)
    requires i < 8
    ensures LengthBytes(24)[i] == if i < 7 then 0 else 24
  {
    hide Pow256, Numbered, LengthBytes;
    NumberedSmall();
    LengthByteIs(24, i);
    if i < 7 {
      PowersExceed(7 - i);
      Smaller(24, Pow256(7 - i));
    } else {
      NoPower();
    }
  }

  lemma LengthByteIs(bits: nat, i: nat)
    requires i < 8
    ensures LengthBytes(bits)[i] == Numbered(bits / Pow256(7 - i) % 256)
  {
    hide Pow256, Numbered;
  }

  lemma NumberedSmall()
    ensures Numbered(0) == 0 && Numbered(24) == 24
  {
  }

  lemma NoPower()
    ensures Pow256(0) == 1
  {
  }

  lemma Smaller(n: nat, d: nat)
    requires n < d
    ensures n / d == 0
  {
  }

  lemma {:induction false} PowersExceed(n: nat)
    requires n >= 1
    ensures Pow256(n) >= 256
  {
    if n > 1 {
      PowersExceed(n - 1);
    }
  }

  // ----- the constants -----

  /** The constants of section 4.2.1 are the square roots of 2, 3, 5 and 10, times 2^30
      and rounded down. */
  lemma ConstantsAreRoots(t: nat)
    requires t < 80
    ensures var k, n := K(t) as int, if t < 20 then 2 else if t < 40 then 3 else if t < 60 then 5 else 10;
      k * k <= n * 0x1000_0000_0000_0000 < (k + 1) * (k + 1)
  {
  }

  // ----- the schedule and the rounds -----

  /** Word t of the schedule is w. */
  ghost predicate Scheduled(m: seq<Word>, t: nat, w: Word) {
    |m| == 16 && Schedule(m, t) == w
  }

  /** The state after n rounds is s. */
  ghost predicate After(m: seq<Word>, n: nat, s: State) {
    |m| == 16 && Rounds(H0, m, n) == s
  }

  lemma FirstWord(m: seq<Word>, t: nat, w: Word)
    requires IsBlock(m) && t < 16 && w == if t == 0 then 0x61626380 else if t == 15 then 0x18 else 0
    ensures Scheduled(m, t, w)
  {
  }

  lemma NextWord(m: seq<Word>, t: nat, w3: Word, w8: Word, w14: Word, w16: Word, w: Word)
    requires t >= 16 && Scheduled(m, t - 3, w3) && Scheduled(m, t - 8, w8)
    requires Scheduled(m, t - 14, w14) && Scheduled(m, t - 16, w16) && w == Mix(w3, w8, w14, w16)
    ensures Scheduled(m, t, w)
  {
    hide Mix;
  }

  /** One round: r and c' are the words rotated, f the function of the middle ones. */
  lemma NextRound(m: seq<Word>, n: nat, a: Word, b: Word, c: Word, d: Word, e: Word, w: Word,
                  r: Word, f: Word, a': Word, c': Word)
    requires After(m, n, State(a, b, c, d, e)) && Scheduled(m, n, w)
    requires r == Rotl(a, 5) && f == F(n, b, c, d) && c' == Rotl(b, 30)
    requires a' == Sum(r, f, e, K(n), w)
    ensures After(m, n + 1, State(a', a, c', c, d))
  {
    hide Rotl, F, K, Sum, Schedule;
  }

  lemma NoRounds(m: seq<Word>)
    requires |m| == 16
    ensures After(m, 0, State(0x67452301, 0xefcdab89, 0x98badcfe, 0x10325476, 0xc3d2e1f0))
  {
  }

  lemma WordsFrom0(m: seq<Word>)
    requires IsBlock(m)
    ensures Scheduled(m, 0, 0x61626380) && Scheduled(m, 1, 0x00000000)
    ensures Scheduled(m, 2, 0x00000000) && Scheduled(m, 3, 0x00000000)
    ensures Scheduled(m, 4, 0x00000000) && Scheduled(m, 5, 0x00000000)
    ensures Scheduled(m, 6, 0x00000000) && Scheduled(m, 7, 0x00000000)
    ensures Scheduled(m, 8, 0x00000000) && Scheduled(m, 9, 0x00000000)
    ensures Scheduled(m, 10, 0x00000000) && Scheduled(m, 11, 0x00000000)
    ensures Scheduled(m, 12, 0x00000000) && Scheduled(m, 13, 0x00000000)
    ensures Scheduled(m, 14, 0x00000000) && Scheduled(m, 15, 0x00000018)
  {
    hide Scheduled;
    FirstWord(m, 0, 0x61626380);
    FirstWord(m, 1, 0x00000000);
    FirstWord(m, 2, 0x00000000);
    FirstWord(m, 3, 0x00000000);
    FirstWord(m, 4, 0x00000000);
    FirstWord(m, 5, 0x00000000);
    FirstWord(m, 6, 0x00000000);
    FirstWord(m, 7, 0x00000000);
    FirstWord(m, 8, 0x00000000);
    FirstWord(m, 9, 0x00000000);
    FirstWord(m, 10, 0x00000000);
    FirstWord(m, 11, 0x00000000);
    FirstWord(m, 12, 0x00000000);
    FirstWord(m, 13, 0x00000000);
    FirstWord(m, 14, 0x00000000);
    FirstWord(m, 15, 0x00000018);
  }

  lemma WordsFrom16(m: seq<Word>)
    requires IsBlock(m)
    ensures Scheduled(m, 16, 0xc2c4c700) && Scheduled(m, 17, 0x00000000)
    ensures Scheduled(m, 18, 0x00000030) && Scheduled(m, 19, 0x85898e01)
    ensures Scheduled(m, 20, 0x00000000) && Scheduled(m, 21, 0x00000060)
    ensures Scheduled(m, 22, 0x0b131c03) && Scheduled(m, 23, 0x00000030)
    ensures Scheduled(m, 24, 0x85898ec1) && Scheduled(m, 25, 0x16263806)
    ensures Scheduled(m, 26, 0x00000000) && Scheduled(m, 27, 0x00000180)
    ensures Scheduled(m, 28, 0x2c4c700c) && Scheduled(m, 29, 0x000000f0)
    ensures Scheduled(m, 30, 0x93afb507) && Scheduled(m, 31, 0x5898e048)
  {
    hide Scheduled;
    WordsFrom0(m);
    NextWord(m, 16, 0x00000000, 0x00000000, 0x00000000, 0x61626380, 0xc2c4c700);
    NextWord(m, 17, 0x00000000, 0x00000000, 0x00000000, 0x00000000, 0x00000000);
    NextWord(m, 18, 0x00000018, 0x00000000, 0x00000000, 0x00000000, 0x00000030);
    NextWord(m, 19, 0xc2c4c700, 0x00000000, 0x00000000, 0x00000000, 0x85898e01);
    NextWord(m, 20, 0x00000000, 0x00000000, 0x00000000, 0x00000000, 0x00000000);
    NextWord(m, 21, 0x00000030, 0x00000000, 0x00000000, 0x00000000, 0x00000060);
    NextWord(m, 22, 0x85898e01, 0x00000000, 0x00000000, 0x00000000, 0x0b131c03);
    NextWord(m, 23, 0x00000000, 0x00000018, 0x00000000, 0x00000000, 0x00000030);
    NextWord(m, 24, 0x00000060, 0xc2c4c700, 0x00000000, 0x00000000, 0x85898ec1);
    NextWord(m, 25, 0x0b131c03, 0x00000000, 0x00000000, 0x00000000, 0x16263806);
    NextWord(m, 26, 0x00000030, 0x00000030, 0x00000000, 0x00000000, 0x00000000);
    NextWord(m, 27, 0x85898ec1, 0x85898e01, 0x00000000, 0x00000000, 0x00000180);
    NextWord(m, 28, 0x16263806, 0x00000000, 0x00000000, 0x00000000, 0x2c4c700c);
    NextWord(m, 29, 0x00000000, 0x00000060, 0x00000018, 0x00000000, 0x000000f0);
    NextWord(m, 30, 0x00000180, 0x0b131c03, 0xc2c4c700, 0x00000000, 0x93afb507);
    NextWord(m, 31, 0x2c4c700c, 0x00000030, 0x00000000, 0x00000018, 0x5898e048);
  }

  lemma WordsFrom32(m: seq<Word>)
    requires IsBlock(m)
    ensures Scheduled(m, 32, 0x8e9a9202) && Scheduled(m, 33, 0x00000600)
    ensures Scheduled(m, 34, 0xb131c0f0) && Scheduled(m, 35, 0x16263bc6)
    ensures Scheduled(m, 36, 0x4ebed41e) && Scheduled(m, 37, 0x626380a1)
    ensures Scheduled(m, 38, 0x16263806) && Scheduled(m, 39, 0x000018c0)
    ensures Scheduled(m, 40, 0xd2e138c4) && Scheduled(m, 41, 0x00000f00)
    ensures Scheduled(m, 42, 0x3afb5079) && Scheduled(m, 43, 0x898e04e5)
    ensures Scheduled(m, 44, 0xe2ba3c2b) && Scheduled(m, 45, 0x000060c0)
    ensures Scheduled(m, 46, 0x053a37cd) && Scheduled(m, 47, 0x74458547)
  {
    hide Scheduled;
    WordsFrom16(m);
    NextWord(m, 32, 0x000000f0, 0x85898ec1, 0x00000030, 0xc2c4c700, 0x8e9a9202);
    NextWord(m, 33, 0x93afb507, 0x16263806, 0x85898e01, 0x00000000, 0x00000600);
    NextWord(m, 34, 0x5898e048, 0x00000000, 0x00000000, 0x00000030, 0xb131c0f0);
    NextWord(m, 35, 0x8e9a9202, 0x00000180, 0x00000060, 0x85898e01, 0x16263bc6);
    NextWord(m, 36, 0x00000600, 0x2c4c700c, 0x0b131c03, 0x00000000, 0x4ebed41e);
    NextWord(m, 37, 0xb131c0f0, 0x000000f0, 0x00000030, 0x00000060, 0x626380a1);
    NextWord(m, 38, 0x16263bc6, 0x93afb507, 0x85898ec1, 0x0b131c03, 0x16263806);
    NextWord(m, 39, 0x4ebed41e, 0x5898e048, 0x16263806, 0x00000030, 0x000018c0);
    NextWord(m, 40, 0x626380a1, 0x8e9a9202, 0x00000000, 0x85898ec1, 0xd2e138c4);
    NextWord(m, 41, 0x16263806, 0x00000600, 0x00000180, 0x16263806, 0x00000f00);
    NextWord(m, 42, 0x000018c0, 0xb131c0f0, 0x2c4c700c, 0x00000000, 0x3afb5079);
    NextWord(m, 43, 0xd2e138c4, 0x16263bc6, 0x000000f0, 0x00000180, 0x898e04e5);
    NextWord(m, 44, 0x00000f00, 0x4ebed41e, 0x93afb507, 0x2c4c700c, 0xe2ba3c2b);
    NextWord(m, 45, 0x3afb5079, 0x626380a1, 0x5898e048, 0x000000f0, 0x000060c0);
    NextWord(m, 46, 0x898e04e5, 0x16263806, 0x8e9a9202, 0x93afb507, 0x053a37cd);
    NextWord(m, 47, 0xe2ba3c2b, 0x000018c0, 0x00000600, 0x5898e048, 0x74458547);
  }

  lemma WordsFrom48(m: seq<Word>)
    requires IsBlock(m)
    ensures Scheduled(m, 48, 0xda9415ed) && Scheduled(m, 49, 0x26380a16)
    ensures Scheduled(m, 50, 0x626383a1) && Scheduled(m, 51, 0x4ebf54de)
    ensures Scheduled(m, 52, 0x3835b44b) && Scheduled(m, 53, 0x0000f600)
    ensures Scheduled(m, 54, 0x1e84c7a3) && Scheduled(m, 55, 0x98e04d98)
    ensures Scheduled(m, 56, 0x651d16a0) && Scheduled(m, 57, 0x62658ca1)
    ensures Scheduled(m, 58, 0x458544d6) && Scheduled(m, 59, 0x44584cb7)
    ensures Scheduled(m, 60, 0x7ba06619) && Scheduled(m, 61, 0x6380aea2)
    ensures Scheduled(m, 62, 0x0ae55269) && Scheduled(m, 63, 0x627b49a1)
  {
    hide Scheduled;
    WordsFrom32(m);
    NextWord(m, 48, 0x000060c0, 0xd2e138c4, 0xb131c0f0, 0x8e9a9202, 0xda9415ed);
    NextWord(m, 49, 0x053a37cd, 0x00000f00, 0x16263bc6, 0x00000600, 0x26380a16);
    NextWord(m, 50, 0x74458547, 0x3afb5079, 0x4ebed41e, 0xb131c0f0, 0x626383a1);
    NextWord(m, 51, 0xda9415ed, 0x898e04e5, 0x626380a1, 0x16263bc6, 0x4ebf54de);
    NextWord(m, 52, 0x26380a16, 0xe2ba3c2b, 0x16263806, 0x4ebed41e, 0x3835b44b);
    NextWord(m, 53, 0x626383a1, 0x000060c0, 0x000018c0, 0x626380a1, 0x0000f600);
    NextWord(m, 54, 0x4ebf54de, 0x053a37cd, 0xd2e138c4, 0x16263806, 0x1e84c7a3);
    NextWord(m, 55, 0x3835b44b, 0x74458547, 0x00000f00, 0x000018c0, 0x98e04d98);
    NextWord(m, 56, 0x0000f600, 0xda9415ed, 0x3afb5079, 0xd2e138c4, 0x651d16a0);
    NextWord(m, 57, 0x1e84c7a3, 0x26380a16, 0x898e04e5, 0x00000f00, 0x62658ca1);
    NextWord(m, 58, 0x98e04d98, 0x626383a1, 0xe2ba3c2b, 0x3afb5079, 0x458544d6);
    NextWord(m, 59, 0x651d16a0, 0x4ebf54de, 0x000060c0, 0x898e04e5, 0x44584cb7);
    NextWord(m, 60, 0x62658ca1, 0x3835b44b, 0x053a37cd, 0xe2ba3c2b, 0x7ba06619);
    NextWord(m, 61, 0x458544d6, 0x0000f600, 0x74458547, 0x000060c0, 0x6380aea2);
    NextWord(m, 62, 0x44584cb7, 0x1e84c7a3, 0xda9415ed, 0x053a37cd, 0x0ae55269);
    NextWord(m, 63, 0x7ba06619, 0x98e04d98, 0x26380a16, 0x74458547, 0x627b49a1);
  }

  lemma WordsFrom64(m: seq<Word>)
    requires IsBlock(m)
    ensures Scheduled(m, 64, 0x7cd45c9d) && Scheduled(m, 65, 0x000f0000)
    ensures Scheduled(m, 66, 0xfb50753a) && Scheduled(m, 67, 0xec6765e8)
    ensures Scheduled(m, 68, 0xba3c2be2) && Scheduled(m, 69, 0x0060c000)
    ensures Scheduled(m, 70, 0x3a37cd05) && Scheduled(m, 71, 0x458546f4)
    ensures Scheduled(m, 72, 0xb8599dd6) && Scheduled(m, 73, 0x380a1a26)
    ensures Scheduled(m, 74, 0x01e02203) && Scheduled(m, 75, 0xe7cc3456)
    ensures Scheduled(m, 76, 0xe6e60b69) && Scheduled(m, 77, 0x00f60a00)
    ensures Scheduled(m, 78, 0x5795ef4f) && Scheduled(m, 79, 0x822e0879)
  {
    hide Scheduled;
    WordsFrom48(m);
    NextWord(m, 64, 0x6380aea2, 0x651d16a0, 0x626383a1, 0xda9415ed, 0x7cd45c9d);
    NextWord(m, 65, 0x0ae55269, 0x62658ca1, 0x4ebf54de, 0x26380a16, 0x000f0000);
    NextWord(m, 66, 0x627b49a1, 0x458544d6, 0x3835b44b, 0x626383a1, 0xfb50753a);
    NextWord(m, 67, 0x7cd45c9d, 0x44584cb7, 0x0000f600, 0x4ebf54de, 0xec6765e8);
    NextWord(m, 68, 0x000f0000, 0x7ba06619, 0x1e84c7a3, 0x3835b44b, 0xba3c2be2);
    NextWord(m, 69, 0xfb50753a, 0x6380aea2, 0x98e04d98, 0x0000f600, 0x0060c000);
    NextWord(m, 70, 0xec6765e8, 0x0ae55269, 0x651d16a0, 0x1e84c7a3, 0x3a37cd05);
    NextWord(m, 71, 0xba3c2be2, 0x627b49a1, 0x62658ca1, 0x98e04d98, 0x458546f4);
    NextWord(m, 72, 0x0060c000, 0x7cd45c9d, 0x458544d6, 0x651d16a0, 0xb8599dd6);
    NextWord(m, 73, 0x3a37cd05, 0x000f0000, 0x44584cb7, 0x62658ca1, 0x380a1a26);
    NextWord(m, 74, 0x458546f4, 0xfb50753a, 0x7ba06619, 0x458544d6, 0x01e02203);
    NextWord(m, 75, 0xb8599dd6, 0xec6765e8, 0x6380aea2, 0x44584cb7, 0xe7cc3456);
    NextWord(m, 76, 0x380a1a26, 0xba3c2be2, 0x0ae55269, 0x7ba06619, 0xe6e60b69);
    NextWord(m, 77, 0x01e02203, 0x0060c000, 0x627b49a1, 0x6380aea2, 0x00f60a00);
    NextWord(m, 78, 0xe7cc3456, 0x3a37cd05, 0x7cd45c9d, 0x0ae55269, 0x5795ef4f);
    NextWord(m, 79, 0xe6e60b69, 0x458546f4, 0x000f0000, 0x627b49a1, 0x822e0879);
  }

  lemma RoundsTo20(m: seq<Word>)
    requires IsBlock(m)
    ensures After(m, 20, State(0xfd9e1d7d, 0xdc64901d, 0x20aa99ca, 0xd3a49608, 0xc82f758b))
  {
    hide Scheduled, After;
    WordsFrom0(m);
    WordsFrom16(m);
    NoRounds(m);
    NextRound(m, 0, 0x67452301, 0xefcdab89, 0x98badcfe, 0x10325476, 0xc3d2e1f0, 0x61626380,
              0xe8a4602c, 0x98badcfe, 0x0116fc33, 0x7bf36ae2);
    NextRound(m, 1, 0x0116fc33, 0x67452301, 0x7bf36ae2, 0x98badcfe, 0x10325476, 0x00000000,
              0x22df8660, 0xfbfbfefe, 0x8990536d, 0x59d148c0);
    NextRound(m, 2, 0x8990536d, 0x0116fc33, 0x59d148c0, 0x7bf36ae2, 0x98badcfe, 0x00000000,
              0x320a6db1, 0x7bf14ac0, 0xa1390f08, 0xc045bf0c);
    NextRound(m, 3, 0xa1390f08, 0x8990536d, 0xc045bf0c, 0x59d148c0, 0x7bf36ae2, 0x00000000,
              0x2721e114, 0xd0411b8c, 0xcdd8e11b, 0x626414db);
    NextRound(m, 4, 0xcdd8e11b, 0xa1390f08, 0x626414db, 0xc045bf0c, 0x59d148c0, 0x00000000,
              0xbb1c2379, 0x6064b40c, 0xcfd499de, 0x284e43c2);
    NextRound(m, 5, 0xcfd499de, 0xcdd8e11b, 0x284e43c2, 0x626414db, 0xc045bf0c, 0x00000000,
              0xfa933bd9, 0x2a6c55c2, 0x3fc7ca40, 0xf3763846);
    NextRound(m, 6, 0x3fc7ca40, 0xcfd499de, 0xf3763846, 0x284e43c2, 0x626414db, 0x00000000,
              0xf8f94807, 0xe35e5a46, 0x993e30c1, 0xb3f52677);
    NextRound(m, 7, 0x993e30c1, 0x3fc7ca40, 0xb3f52677, 0xf3763846, 0x284e43c2, 0x00000000,
              0x27c61833, 0xf3f53246, 0x9e8c07d4, 0x0ff1f290);
    NextRound(m, 8, 0x9e8c07d4, 0x993e30c1, 0x0ff1f290, 0xb3f52677, 0xf3763846, 0x00000000,
              0xd180fa93, 0x2bf136b6, 0x4b6ae328, 0x664f8c30);
    NextRound(m, 9, 0x4b6ae328, 0x9e8c07d4, 0x664f8c30, 0x0ff1f290, 0xb3f52677, 0x00000000,
              0x6d5c6509, 0x077df410, 0x8351f929, 0x27a301f5);
    NextRound(m, 10, 0x8351f929, 0x4b6ae328, 0x27a301f5, 0x664f8c30, 0x0ff1f290, 0x00000000,
              0x6a3f2530, 0x27270d30, 0xfbda9e89, 0x12dab8ca);
    NextRound(m, 11, 0xfbda9e89, 0x8351f929, 0x12dab8ca, 0x27a301f5, 0x664f8c30, 0x00000000,
              0x7b53d13f, 0x26f2b8dc, 0x63188fe4, 0x60d47e4a);
    NextRound(m, 12, 0x63188fe4, 0xfbda9e89, 0x60d47e4a, 0x12dab8ca, 0x27a301f5, 0x00000000,
              0x6311fc8c, 0x60d03e4a, 0x4607b664, 0x7ef6a7a2);
    NextRound(m, 13, 0x4607b664, 0x63188fe4, 0x7ef6a7a2, 0x60d47e4a, 0x12dab8ca, 0x00000000,
              0xc0f6cc88, 0x62d4f7aa, 0x9128f695, 0x18c623f9);
    NextRound(m, 14, 0x9128f695, 0x4607b664, 0x18c623f9, 0x7ef6a7a2, 0x60d47e4a, 0x00000000,
              0x251ed2b2, 0x38f623e2, 0x196bee77, 0x1181ed99);
    NextRound(m, 15, 0x196bee77, 0x9128f695, 0x1181ed99, 0x18c623f9, 0x7ef6a7a2, 0x00000018,
              0x2d7dcee3, 0x19c6e5f9, 0x20bdd62f, 0x644a3da5);
    NextRound(m, 16, 0x20bdd62f, 0x196bee77, 0x644a3da5, 0x1181ed99, 0x18c623f9, 0xc2c4c700,
              0x17bac5e4, 0x00ca2dad, 0x4e925823, 0xc65afb9d);
    NextRound(m, 17, 0x4e925823, 0x20bdd62f, 0xc65afb9d, 0x644a3da5, 0x1181ed99, 0x00000000,
              0xd24b0469, 0x445afb8d, 0x82aa6728, 0xc82f758b);
    NextRound(m, 18, 0x82aa6728, 0x4e925823, 0xc82f758b, 0xc65afb9d, 0x644a3da5, 0x00000030,
              0x554ce510, 0xc84af39f, 0xdc64901d, 0xd3a49608);
    NextRound(m, 19, 0xdc64901d, 0x82aa6728, 0xd3a49608, 0xc82f758b, 0xc65afb9d, 0x85898e01,
              0x8c9203bb, 0xcaa5168b, 0xfd9e1d7d, 0x20aa99ca);
  }

  lemma RoundsTo40(m: seq<Word>)
    requires IsBlock(m)
    ensures After(m, 40, State(0x32de1cba, 0x4c986405, 0xf718e5cf, 0x03d447f6, 0xf72eec32))
  {
    hide Scheduled, After;
    WordsFrom16(m);
    WordsFrom32(m);
    RoundsTo20(m);
    NextRound(m, 20, 0xfd9e1d7d, 0xdc64901d, 0x20aa99ca, 0xd3a49608, 0xc82f758b, 0x00000000,
              0xb3c3afbf, 0x2f6a9fdf, 0x1a37b0ca, 0x77192407);
    NextRound(m, 21, 0x1a37b0ca, 0xfd9e1d7d, 0x77192407, 0x20aa99ca, 0xd3a49608, 0x00000060,
              0x46f61943, 0xaa2da0b0, 0x33a23bfc, 0x7f67875f);
    NextRound(m, 22, 0x33a23bfc, 0x1a37b0ca, 0x7f67875f, 0x77192407, 0x20aa99ca, 0x0b131c03,
              0x74477f86, 0x12491392, 0x21283486, 0x868dec32);
    NextRound(m, 23, 0x21283486, 0x33a23bfc, 0x868dec32, 0x7f67875f, 0x77192407, 0x00000030,
              0x250690c4, 0xca485091, 0xd541f12d, 0x0ce88eff);
    NextRound(m, 24, 0xd541f12d, 0x21283486, 0x0ce88eff, 0x868dec32, 0x7f67875f, 0x85898ec1,
              0xa83e25ba, 0xab4d564b, 0xc7567dc6, 0x884a0d21);
    NextRound(m, 25, 0xc7567dc6, 0xd541f12d, 0x884a0d21, 0x0ce88eff, 0x868dec32, 0x16263806,
              0xeacfb8d8, 0x51e372f3, 0x48413ba4, 0x75507c4b);
    NextRound(m, 26, 0x48413ba4, 0xc7567dc6, 0x75507c4b, 0x884a0d21, 0x0ce88eff, 0x00000000,
              0x08277489, 0x3a4c0cac, 0xbe35fbd5, 0xb1d59f71);
    NextRound(m, 27, 0xbe35fbd5, 0x48413ba4, 0xb1d59f71, 0x75507c4b, 0x884a0d21, 0x00000180,
              0xc6bf7ab7, 0x8cc4d89e, 0x4aa84d97, 0x12104ee9);
    NextRound(m, 28, 0x4aa84d97, 0xbe35fbd5, 0x12104ee9, 0xb1d59f71, 0x75507c4b, 0x2c4c700c,
              0x5509b2e9, 0x1df02a4d, 0x8370b52e, 0x6f8d7ef5);
    NextRound(m, 29, 0x8370b52e, 0x4aa84d97, 0x6f8d7ef5, 0x12104ee9, 0xb1d59f71, 0x000000f0,
              0x6e16a5d0, 0x37357d8b, 0xc5fbaf5d, 0xd2aa1365);
    NextRound(m, 30, 0xc5fbaf5d, 0x8370b52e, 0xd2aa1365, 0x6f8d7ef5, 0x12104ee9, 0x93afb507,
              0xbf75ebb8, 0x3e57d8be, 0x1267b407, 0xa0dc2d4b);
    NextRound(m, 31, 0x1267b407, 0xc5fbaf5d, 0xa0dc2d4b, 0xd2aa1365, 0x6f8d7ef5, 0x5898e048,
              0x4cf680e2, 0xb78d9173, 0x3b845d33, 0x717eebd7);
    NextRound(m, 32, 0x3b845d33, 0x1267b407, 0x717eebd7, 0xa0dc2d4b, 0xd2aa1365, 0x8e9a9202,
              0x708ba667, 0xc3c5729b, 0x046faa0a, 0xc499ed01);
    NextRound(m, 33, 0x046faa0a, 0x3b845d33, 0xc499ed01, 0x717eebd7, 0xa0dc2d4b, 0x00000600,
              0x8df54140, 0x8e635be5, 0x2c0ebc11, 0xcee1174c);
    NextRound(m, 34, 0x2c0ebc11, 0x046faa0a, 0xcee1174c, 0xc499ed01, 0x717eebd7, 0xb131c0f0,
              0x81d78225, 0x0e175047, 0x21796ad4, 0x811bea82);
    NextRound(m, 35, 0x21796ad4, 0x2c0ebc11, 0x811bea82, 0xcee1174c, 0xc499ed01, 0x16263bc6,
              0x2f2d5a84, 0x63f441df, 0xdcbbb0cb, 0x4b03af04);
    NextRound(m, 36, 0xdcbbb0cb, 0x21796ad4, 0x4b03af04, 0x811bea82, 0xcee1174c, 0x4ebed41e,
              0x9776197b, 0xeb612f52, 0x0f511fd8, 0x085e5ab5);
    NextRound(m, 37, 0x0f511fd8, 0xdcbbb0cb, 0x085e5ab5, 0x4b03af04, 0x811bea82, 0x626380a1,
              0xea23fb01, 0x9fe6457a, 0xdc63973f, 0xf72eec32);
    NextRound(m, 38, 0xdc63973f, 0x0f511fd8, 0xf72eec32, 0x085e5ab5, 0x4b03af04, 0x16263806,
              0x8c72e7fb, 0xf021a95f, 0x4c986405, 0x03d447f6);
    NextRound(m, 39, 0x4c986405, 0xdc63973f, 0x03d447f6, 0xf72eec32, 0x085e5ab5, 0x000018c0,
              0x930c80a9, 0x28993cfb, 0x32de1cba, 0xf718e5cf);
  }

  lemma RoundsTo60(m: seq<Word>)
    requires IsBlock(m)
    ensures After(m, 60, State(0x3f52de5a, 0x09d785fd, 0x3498bfd4, 0xf211824f, 0xd79915ab))
  {
    hide Scheduled, After;
    WordsFrom32(m);
    WordsFrom48(m);
    RoundsTo40(m);
    NextRound(m, 40, 0x32de1cba, 0x4c986405, 0xf718e5cf, 0x03d447f6, 0xf72eec32, 0xd2e138c4,
              0x5bc39746, 0x479865c7, 0xfc87dedf, 0x53261901);
    NextRound(m, 41, 0xfc87dedf, 0x32de1cba, 0x53261901, 0xf718e5cf, 0x03d447f6, 0x00000f00,
              0x90fbdbff, 0x731e1d8b, 0x970a0d5c, 0x8cb7872e);
    NextRound(m, 42, 0x970a0d5c, 0xfc87dedf, 0x8cb7872e, 0x53261901, 0xf718e5cf, 0x3afb5079,
              0xe141ab92, 0xdca79f0f, 0x7f193dc5, 0xff21f7b7);
    NextRound(m, 43, 0x7f193dc5, 0x970a0d5c, 0xff21f7b7, 0x8cb7872e, 0x53261901, 0x898e04e5,
              0xe327b8af, 0x9f23873e, 0xee1b1aaf, 0x25c28357);
    NextRound(m, 44, 0xee1b1aaf, 0x7f193dc5, 0x25c28357, 0xff21f7b7, 0x8cb7872e, 0xe2ba3c2b,
              0xc36355fd, 0x7f01b7d7, 0x40f28e09, 0x5fc64f71);
    NextRound(m, 45, 0x40f28e09, 0xee1b1aaf, 0x5fc64f71, 0x25c28357, 0xff21f7b7, 0x000060c0,
              0x1e51c128, 0x6fc20b77, 0x1c51e1f2, 0xfb86c6ab);
    NextRound(m, 46, 0x1c51e1f2, 0x40f28e09, 0xfb86c6ab, 0x5fc64f71, 0x25c28357, 0x053a37cd,
              0x8a3c3e43, 0x5bc6ce29, 0xa01b846c, 0x503ca382);
    NextRound(m, 47, 0xa01b846c, 0x1c51e1f2, 0x503ca382, 0xfb86c6ab, 0x5fc64f71, 0x74458547,
              0x03708d94, 0x5814e3a2, 0xbead02ca, 0x8714787c);
    NextRound(m, 48, 0xbead02ca, 0xa01b846c, 0x8714787c, 0x503ca382, 0xfb86c6ab, 0xda9415ed,
              0xd5a05957, 0x801ca06c, 0xbaf39337, 0x2806e11b);
    NextRound(m, 49, 0xbaf39337, 0xbead02ca, 0x2806e11b, 0x8714787c, 0x503ca382, 0x26380a16,
              0x5e7266f7, 0xae04605a, 0x120731c5, 0xafab40b2);
    NextRound(m, 50, 0x120731c5, 0xbaf39337, 0xafab40b2, 0x2806e11b, 0x8714787c, 0x626383a1,
              0x40e638a2, 0xaaa3c133, 0x641db2ce, 0xeebce4cd);
    NextRound(m, 51, 0x641db2ce, 0x120731c5, 0xeebce4cd, 0xafab40b2, 0x2806e11b, 0x4ebf54de,
              0x83b659cc, 0xaeaf60c5, 0x3847ad66, 0x4481cc71);
    NextRound(m, 52, 0x3847ad66, 0x641db2ce, 0x4481cc71, 0xeebce4cd, 0xafab40b2, 0x3835b44b,
              0x08f5acc7, 0x649de4cd, 0xe490436d, 0x99076cb3);
    NextRound(m, 53, 0xe490436d, 0x3847ad66, 0x99076cb3, 0x4481cc71, 0xeebce4cd, 0x0000f600,
              0x92086dbc, 0x1807ec73, 0x27e9f1d8, 0x8e11eb59);
    NextRound(m, 54, 0x27e9f1d8, 0xe490436d, 0x8e11eb59, 0x99076cb3, 0x4481cc71, 0x1e84c7a3,
              0xfd3e3b04, 0x8c116b79, 0x7b71f76d, 0x792410db);
    NextRound(m, 55, 0x7b71f76d, 0x27e9f1d8, 0x792410db, 0x8e11eb59, 0x99076cb3, 0x98e04d98,
              0x6e3eedaf, 0x2f21f1d9, 0x5e6456af, 0x09fa7c76);
    NextRound(m, 56, 0x5e6456af, 0x7b71f76d, 0x09fa7c76, 0x792410db, 0x8e11eb59, 0x651d16a0,
              0xcc8ad5eb, 0x7970747f, 0xc846093f, 0x5edc7ddb);
    NextRound(m, 57, 0xc846093f, 0x5e6456af, 0x5edc7ddb, 0x09fa7c76, 0x792410db, 0x62658ca1,
              0x08c127f9, 0x5efc7cff, 0xd262ff50, 0xd79915ab);
    NextRound(m, 58, 0xd262ff50, 0xc846093f, 0xd79915ab, 0x5edc7ddb, 0x09fa7c76, 0x458544d6,
              0x4c5fea1a, 0xdedc1dbb, 0x09d785fd, 0xf211824f);
    NextRound(m, 59, 0x09d785fd, 0xd262ff50, 0xf211824f, 0xd79915ab, 0x5edc7ddb, 0x44584cb7,
              0x3af0bfa1, 0xd211974b, 0x3f52de5a, 0x3498bfd4);
  }

  lemma RoundsTo80(m: seq<Word>)
    requires IsBlock(m)
    ensures After(m, 80, State(0x42541b35, 0x5738d5e1, 0x21834873, 0x681e6df6, 0xd8fdf6ad))
  {
    hide Scheduled, After;
    WordsFrom48(m);
    WordsFrom64(m);
    RoundsTo60(m);
    NextRound(m, 60, 0x3f52de5a, 0x09d785fd, 0x3498bfd4, 0xf211824f, 0xd79915ab, 0x7ba06619,
              0xea5bcb47, 0xcf5eb866, 0xd756c147, 0x4275e17f);
    NextRound(m, 61, 0xd756c147, 0x3f52de5a, 0x4275e17f, 0x3498bfd4, 0xf211824f, 0x6380aea2,
              0xead828fa, 0x49bf80f1, 0x548c9cb2, 0x8fd4b796);
    NextRound(m, 62, 0x548c9cb2, 0xd756c147, 0x8fd4b796, 0x4275e17f, 0x3498bfd4, 0x0ae55269,
              0x9193964a, 0x1af797ae, 0xb66c020b, 0xf5d5b051);
    NextRound(m, 63, 0xb66c020b, 0x548c9cb2, 0xf5d5b051, 0x8fd4b796, 0x4275e17f, 0x627b49a1,
              0xcd804176, 0x2e8d9b75, 0x6b61c9e1, 0x9523272c);
    NextRound(m, 64, 0x6b61c9e1, 0xb66c020b, 0x9523272c, 0xf5d5b051, 0x8fd4b796, 0x7cd45c9d,
              0x6c393c2d, 0xd69a9576, 0x19dfa7ac, 0xed9b0082);
    NextRound(m, 65, 0x19dfa7ac, 0x6b61c9e1, 0xed9b0082, 0x9523272c, 0xf5d5b051, 0x000f0000,
              0x3bf4f583, 0x13d9ee4f, 0x101655f9, 0x5ad87278);
    NextRound(m, 66, 0x101655f9, 0x19dfa7ac, 0x5ad87278, 0xed9b0082, 0x9523272c, 0xfb50753a,
              0x02cabf22, 0xae9cd556, 0x0c3df2b4, 0x0677e9eb);
    NextRound(m, 67, 0x0c3df2b4, 0x101655f9, 0x0677e9eb, 0x5ad87278, 0xed9b0082, 0xec6765e8,
              0x87be5681, 0x4cb9ce6a, 0x78dd4d2b, 0x4405957e);
    NextRound(m, 68, 0x78dd4d2b, 0x0c3df2b4, 0x4405957e, 0x0677e9eb, 0x5ad87278, 0xba3c2be2,
              0x1ba9a56f, 0x4e4f8e21, 0x497093c0, 0x030f7cad);
    NextRound(m, 69, 0x497093c0, 0x78dd4d2b, 0x030f7cad, 0x4405957e, 0x0677e9eb, 0x0060c000,
              0x2e127809, 0x3fd7a4f8, 0x3f2588c2, 0xde37534a);
    NextRound(m, 70, 0x3f2588c2, 0x497093c0, 0xde37534a, 0x030f7cad, 0x4405957e, 0x3a37cd05,
              0xe4b11847, 0x9448bc27, 0xc199f8c7, 0x125c24f0);
    NextRound(m, 71, 0xc199f8c7, 0x3f2588c2, 0x125c24f0, 0xde37534a, 0x030f7cad, 0x458546f4,
              0x333f18f8, 0xf34eff78, 0x39859de7, 0x8fc96230);
    NextRound(m, 72, 0x39859de7, 0xc199f8c7, 0x8fc96230, 0x125c24f0, 0xde37534a, 0xb8599dd6,
              0x30b3bce7, 0x5c0cbe07, 0xedb42de4, 0xf0667e31);
    NextRound(m, 73, 0xedb42de4, 0x39859de7, 0xf0667e31, 0x8fc96230, 0x125c24f0, 0x380a1a26,
              0xb685bc9d, 0x462a81e6, 0x11793f6f, 0xce616779);
    NextRound(m, 74, 0x11793f6f, 0xedb42de4, 0xce616779, 0xf0667e31, 0x8fc96230, 0x01e02203,
              0x2f27ede2, 0xd3b334ac, 0x5ee76897, 0x3b6d0b79);
    NextRound(m, 75, 0x5ee76897, 0x11793f6f, 0x3b6d0b79, 0xce616779, 0xf0667e31, 0xe7cc3456,
              0xdced12eb, 0xe475536f, 0x63f7dab7, 0xc45e4fdb);
    NextRound(m, 76, 0x63f7dab7, 0x5ee76897, 0xc45e4fdb, 0x3b6d0b79, 0xce616779, 0xe6e60b69,
              0x7efb56ec, 0xa1d42c35, 0xa079b7d9, 0xd7b9da25);
    NextRound(m, 77, 0xa079b7d9, 0x63f7dab7, 0xd7b9da25, 0xc45e4fdb, 0x3b6d0b79, 0x00f60a00,
              0x0f36fb34, 0x70104f49, 0x860d21cc, 0xd8fdf6ad);
    NextRound(m, 78, 0x860d21cc, 0xa079b7d9, 0xd8fdf6ad, 0xd7b9da25, 0xc45e4fdb, 0x5795ef4f,
              0xc1a43990, 0xaf3d9b51, 0x5738d5e1, 0x681e6df6);
    NextRound(m, 79, 0x5738d5e1, 0x860d21cc, 0x681e6df6, 0xd8fdf6ad, 0xd7b9da25, 0x822e0879,
              0xe71abc2a, 0x36eeba97, 0x42541b35, 0x21834873);
  }

  lemma PaddedAbc()
    ensures |Pad(ABC)| == 64 && IsBlock(Words(Pad(ABC)))
  {
    hide LengthBytes;
    LengthOfAbc();
    var b := Pad(ABC);
    assert ZeroCount(3) == 52;
    assert b[0] == 0x61 && b[1] == 0x62 && b[2] == 0x63 && b[3] == 0x80 && b[63] == 24;
    assert forall i :: 4 <= i < 63 ==> b[i] == 0;
  }

  lemma HashOfAbc()
    ensures Hash(H0, Pad(ABC)) == State(0xa9993e36, 0x4706816a, 0xba3e2571, 0x7850c26c, 0x9cd0d89d)
  {
    hide Rounds, Words, Pad, IsBlock;
    PaddedAbc();
    var b := Pad(ABC);
    RoundsTo80(Words(b));
    assert b[..64] == b && b[64..] == [];
    assert Hash(Compress(H0, Words(b)), []) == Compress(H0, Words(b));
  }

  lemma BytesOfDigest()
    ensures WordByte(0xa9993e36, 0) == 0xa9 && WordByte(0xa9993e36, 1) == 0x99
    ensures WordByte(0xa9993e36, 2) == 0x3e && WordByte(0xa9993e36, 3) == 0x36
    ensures WordByte(0x4706816a, 0) == 0x47 && WordByte(0x4706816a, 1) == 0x06
    ensures WordByte(0x4706816a, 2) == 0x81 && WordByte(0x4706816a, 3) == 0x6a
    ensures WordByte(0xba3e2571, 0) == 0xba && WordByte(0xba3e2571, 1) == 0x3e
    ensures WordByte(0xba3e2571, 2) == 0x25 && WordByte(0xba3e2571, 3) == 0x71
    ensures WordByte(0x7850c26c, 0) == 0x78 && WordByte(0x7850c26c, 1) == 0x50
    ensures WordByte(0x7850c26c, 2) == 0xc2 && WordByte(0x7850c26c, 3) == 0x6c
    ensures WordByte(0x9cd0d89d, 0) == 0x9c && WordByte(0x9cd0d89d, 1) == 0xd0
    ensures WordByte(0x9cd0d89d, 2) == 0xd8 && WordByte(0x9cd0d89d, 3) == 0x9d
  {
  }

  /** a9993e36 4706816a ba3e2571 7850c26c 9cd0d89d */
  lemma DigestOfAbc()
    ensures Sha1(ABC) == [
      0xa9, 0x99, 0x3e, 0x36, 0x47, 0x06, 0x81, 0x6a, 0xba, 0x3e,
      0x25, 0x71, 0x78, 0x50, 0xc2, 0x6c, 0x9c, 0xd0, 0xd8, 0x9d]
  {
    hide Hash, Pad, WordByte;
    HashOfAbc();
    BytesOfDigest();
  }
}
