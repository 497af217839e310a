/** The first known answer of appendix A of FIPS PUB 180-1, step by step: the block function on the
    padded message "abc", from the initial words of the standard. */
module Sha1Vector {
  import opened Sha1

  const STANDARD := Hash(0x67452301, 0xEFCDAB89, 0x98BADCFE, 0x10325476, 0xC3D2E1F0)

  /** The only block of the padded message "abc". */
  function Abc(): (s: seq<Octet>)
    ensures |s| == 64
  {
    [0x61, 0x62, 0x63, 0x80] + seq(59, _ => 0) + [24]
  }

  lemma AbcIsPadded()
    ensures Pad([0x61, 0x62, 0x63]) == Abc()
  {
    assert Gap(3) == 52;
    assert Big64(24) == [0, 0, 0, 0, 0, 0, 0, 24];
  }

  lemma WordIs(block: seq<Octet>, t: nat, a: Octet, b: Octet, c: Octet, d: Octet)
    requires |block| == 64 && t < 16
    requires block[t * 4] == a && block[t * 4 + 1] == b && block[t * 4 + 2] == c && block[t * 4 + 3] == d
    ensures Schedule(block, t) == (a as bv32 << 24) | (b as bv32 << 16) | (c as bv32 << 8) | (d as bv32)
  {
  }

  lemma FirstWords(data: seq<Octet>)
    requires data == Abc()
    ensures Schedule(data, 0) == 0x61626380 && Schedule(data, 15) == 0x18
    ensures forall t :: 0 < t < 15 ==> Schedule(data, t) == 0
  {
    hide Schedule;
    WordIs(data, 0, 0x61, 0x62, 0x63, 0x80);
    WordIs(data, 15, 0, 0, 0, 24);
    forall t: nat | 0 < t < 15 ensures Schedule(data, t) == 0 {
      WordIs(data, t, 0, 0, 0, 0);
    }
  }

  lemma NextWord(data: seq<Octet>, t: nat, x: bv32, y: bv32, z: bv32, u: bv32, w: bv32)
    requires |data| == 64 && 16 <= t < 80 && Schedule(data, t - 3) == x && Schedule(data, t - 8) == y
    requires Schedule(data, t - 14) == z && Schedule(data, t - 16) == u && Rotl(Xor4(x, y, z, u), 1) == w
    ensures Schedule(data, t) == w
  {
  }

  lemma Words16(data: seq<Octet>)
    requires data == Abc()
    ensures Schedule(data, 16) == 0xC2C4C700 && Schedule(data, 17) == 0x00000000
    ensures Schedule(data, 18) == 0x00000030 && Schedule(data, 19) == 0x85898E01
    ensures Schedule(data, 20) == 0x00000000 && Schedule(data, 21) == 0x00000060
    ensures Schedule(data, 22) == 0x0B131C03 && Schedule(data, 23) == 0x00000030
  {
    hide Schedule;
    FirstWords(data);
    NextWord(data, 16, 0x00000000, 0x00000000, 0x00000000, 0x61626380, 0xC2C4C700);
    NextWord(data, 17, 0x00000000, 0x00000000, 0x00000000, 0x00000000, 0x00000000);
    NextWord(data, 18, 0x00000018, 0x00000000, 0x00000000, 0x00000000, 0x00000030);
    NextWord(data, 19, 0xC2C4C700, 0x00000000, 0x00000000, 0x00000000, 0x85898E01);
    NextWord(data, 20, 0x00000000, 0x00000000, 0x00000000, 0x00000000, 0x00000000);
    NextWord(data, 21, 0x00000030, 0x00000000, 0x00000000, 0x00000000, 0x00000060);
    NextWord(data, 22, 0x85898E01, 0x00000000, 0x00000000, 0x00000000, 0x0B131C03);
    NextWord(data, 23, 0x00000000, 0x00000018, 0x00000000, 0x00000000, 0x00000030);
  }

  lemma Words24(data: seq<Octet>)
    requires data == Abc()
    ensures Schedule(data, 24) == 0x85898EC1 && Schedule(data, 25) == 0x16263806
    ensures Schedule(data, 26) == 0x00000000 && Schedule(data, 27) == 0x00000180
    ensures Schedule(data, 28) == 0x2C4C700C && Schedule(data, 29) == 0x000000F0
    ensures Schedule(data, 30) == 0x93AFB507 && Schedule(data, 31) == 0x5898E048
  {
    hide Schedule;
    Words16(data);
    FirstWords(data);
    NextWord(data, 24, 0x00000060, 0xC2C4C700, 0x00000000, 0x00000000, 0x85898EC1);
    NextWord(data, 25, 0x0B131C03, 0x00000000, 0x00000000, 0x00000000, 0x16263806);
    NextWord(data, 26, 0x00000030, 0x00000030, 0x00000000, 0x00000000, 0x00000000);
    NextWord(data, 27, 0x85898EC1, 0x85898E01, 0x00000000, 0x00000000, 0x00000180);
    NextWord(data, 28, 0x16263806, 0x00000000, 0x00000000, 0x00000000, 0x2C4C700C);
    NextWord(data, 29, 0x00000000, 0x00000060, 0x00000018, 0x00000000, 0x000000F0);
    NextWord(data, 30, 0x00000180, 0x0B131C03, 0xC2C4C700, 0x00000000, 0x93AFB507);
    NextWord(data, 31, 0x2C4C700C, 0x00000030, 0x00000000, 0x00000018, 0x5898E048);
  }

  lemma Words32(data: seq<Octet>)
    requires data == Abc()
    ensures Schedule(data, 32) == 0x8E9A9202 && Schedule(data, 33) == 0x00000600
    ensures Schedule(data, 34) == 0xB131C0F0 && Schedule(data, 35) == 0x16263BC6
    ensures Schedule(data, 36) == 0x4EBED41E && Schedule(data, 37) == 0x626380A1
    ensures Schedule(data, 38) == 0x16263806 && Schedule(data, 39) == 0x000018C0
  {
    hide Schedule;
    Words24(data);
    Words16(data);
    NextWord(data, 32, 0x000000F0, 0x85898EC1, 0x00000030, 0xC2C4C700, 0x8E9A9202);
    NextWord(data, 33, 0x93AFB507, 0x16263806, 0x85898E01, 0x00000000, 0x00000600);
    NextWord(data, 34, 0x5898E048, 0x00000000, 0x00000000, 0x00000030, 0xB131C0F0);
    NextWord(data, 35, 0x8E9A9202, 0x00000180, 0x00000060, 0x85898E01, 0x16263BC6);
    NextWord(data, 36, 0x00000600, 0x2C4C700C, 0x0B131C03, 0x00000000, 0x4EBED41E);
    NextWord(data, 37, 0xB131C0F0, 0x000000F0, 0x00000030, 0x00000060, 0x626380A1);
    NextWord(data, 38, 0x16263BC6, 0x93AFB507, 0x85898EC1, 0x0B131C03, 0x16263806);
    NextWord(data, 39, 0x4EBED41E, 0x5898E048, 0x16263806, 0x00000030, 0x000018C0);
  }

  lemma Words40(data: seq<Octet>)
    requires data == Abc()
    ensures Schedule(data, 40) == 0xD2E138C4 && Schedule(data, 41) == 0x00000F00
    ensures Schedule(data, 42) == 0x3AFB5079 && Schedule(data, 43) == 0x898E04E5
    ensures Schedule(data, 44) == 0xE2BA3C2B && Schedule(data, 45) == 0x000060C0
    ensures Schedule(data, 46) == 0x053A37CD && Schedule(data, 47) == 0x74458547
  {
    hide Schedule;
    Words32(data);
    Words24(data);
    NextWord(data, 40, 0x626380A1, 0x8E9A9202, 0x00000000, 0x85898EC1, 0xD2E138C4);
    NextWord(data, 41, 0x16263806, 0x00000600, 0x00000180, 0x16263806, 0x00000F00);
    NextWord(data, 42, 0x000018C0, 0xB131C0F0, 0x2C4C700C, 0x00000000, 0x3AFB5079);
    NextWord(data, 43, 0xD2E138C4, 0x16263BC6, 0x000000F0, 0x00000180, 0x898E04E5);
    NextWord(data, 44, 0x00000F00, 0x4EBED41E, 0x93AFB507, 0x2C4C700C, 0xE2BA3C2B);
    NextWord(data, 45, 0x3AFB5079, 0x626380A1, 0x5898E048, 0x000000F0, 0x000060C0);
    NextWord(data, 46, 0x898E04E5, 0x16263806, 0x8E9A9202, 0x93AFB507, 0x053A37CD);
    NextWord(data, 47, 0xE2BA3C2B, 0x000018C0, 0x00000600, 0x5898E048, 0x74458547);
  }

  lemma Words48(data: seq<Octet>)
    requires data == Abc()
    ensures Schedule(data, 48) == 0xDA9415ED && Schedule(data, 49) == 0x26380A16
    ensures Schedule(data, 50) == 0x626383A1 && Schedule(data, 51) == 0x4EBF54DE
    ensures Schedule(data, 52) == 0x3835B44B && Schedule(data, 53) == 0x0000F600
    ensures Schedule(data, 54) == 0x1E84C7A3 && Schedule(data, 55) == 0x98E04D98
  {
    hide Schedule;
    Words40(data);
    Words32(data);
    NextWord(data, 48, 0x000060C0, 0xD2E138C4, 0xB131C0F0, 0x8E9A9202, 0xDA9415ED);
    NextWord(data, 49, 0x053A37CD, 0x00000F00, 0x16263BC6, 0x00000600, 0x26380A16);
    NextWord(data, 50, 0x74458547, 0x3AFB5079, 0x4EBED41E, 0xB131C0F0, 0x626383A1);
    NextWord(data, 51, 0xDA9415ED, 0x898E04E5, 0x626380A1, 0x16263BC6, 0x4EBF54DE);
    NextWord(data, 52, 0x26380A16, 0xE2BA3C2B, 0x16263806, 0x4EBED41E, 0x3835B44B);
    NextWord(data, 53, 0x626383A1, 0x000060C0, 0x000018C0, 0x626380A1, 0x0000F600);
    NextWord(data, 54, 0x4EBF54DE, 0x053A37CD, 0xD2E138C4, 0x16263806, 0x1E84C7A3);
    NextWord(data, 55, 0x3835B44B, 0x74458547, 0x00000F00, 0x000018C0, 0x98E04D98);
  }

  lemma Words56(data: seq<Octet>)
    requires data == Abc()
    ensures Schedule(data, 56) == 0x651D16A0 && Schedule(data, 57) == 0x62658CA1
    ensures Schedule(data, 58) == 0x458544D6 && Schedule(data, 59) == 0x44584CB7
    ensures Schedule(data, 60) == 0x7BA06619 && Schedule(data, 61) == 0x6380AEA2
    ensures Schedule(data, 62) == 0x0AE55269 && Schedule(data, 63) == 0x627B49A1
  {
    hide Schedule;
    Words48(data);
    Words40(data);
    NextWord(data, 56, 0x0000F600, 0xDA9415ED, 0x3AFB5079, 0xD2E138C4, 0x651D16A0);
    NextWord(data, 57, 0x1E84C7A3, 0x26380A16, 0x898E04E5, 0x00000F00, 0x62658CA1);
    NextWord(data, 58, 0x98E04D98, 0x626383A1, 0xE2BA3C2B, 0x3AFB5079, 0x458544D6);
    NextWord(data, 59, 0x651D16A0, 0x4EBF54DE, 0x000060C0, 0x898E04E5, 0x44584CB7);
    NextWord(data, 60, 0x62658CA1, 0x3835B44B, 0x053A37CD, 0xE2BA3C2B, 0x7BA06619);
    NextWord(data, 61, 0x458544D6, 0x0000F600, 0x74458547, 0x000060C0, 0x6380AEA2);
    NextWord(data, 62, 0x44584CB7, 0x1E84C7A3, 0xDA9415ED, 0x053A37CD, 0x0AE55269);
    NextWord(data, 63, 0x7BA06619, 0x98E04D98, 0x26380A16, 0x74458547, 0x627B49A1);
  }

  lemma Words64(data: seq<Octet>)
    requires data == Abc()
    ensures Schedule(data, 64) == 0x7CD45C9D && Schedule(data, 65) == 0x000F0000
    ensures Schedule(data, 66) == 0xFB50753A && Schedule(data, 67) == 0xEC6765E8
    ensures Schedule(data, 68) == 0xBA3C2BE2 && Schedule(data, 69) == 0x0060C000
    ensures Schedule(data, 70) == 0x3A37CD05 && Schedule(data, 71) == 0x458546F4
  {
    hide Schedule;
    Words56(data);
    Words48(data);
    NextWord(data, 64, 0x6380AEA2, 0x651D16A0, 0x626383A1, 0xDA9415ED, 0x7CD45C9D);
    NextWord(data, 65, 0x0AE55269, 0x62658CA1, 0x4EBF54DE, 0x26380A16, 0x000F0000);
    NextWord(data, 66, 0x627B49A1, 0x458544D6, 0x3835B44B, 0x626383A1, 0xFB50753A);
    NextWord(data, 67, 0x7CD45C9D, 0x44584CB7, 0x0000F600, 0x4EBF54DE, 0xEC6765E8);
    NextWord(data, 68, 0x000F0000, 0x7BA06619, 0x1E84C7A3, 0x3835B44B, 0xBA3C2BE2);
    NextWord(data, 69, 0xFB50753A, 0x6380AEA2, 0x98E04D98, 0x0000F600, 0x0060C000);
    NextWord(data, 70, 0xEC6765E8, 0x0AE55269, 0x651D16A0, 0x1E84C7A3, 0x3A37CD05);
    NextWord(data, 71, 0xBA3C2BE2, 0x627B49A1, 0x62658CA1, 0x98E04D98, 0x458546F4);
  }

  lemma Words72(data: seq<Octet>)
    requires data == Abc()
    ensures Schedule(data, 72) == 0xB8599DD6 && Schedule(data, 73) == 0x380A1A26
    ensures Schedule(data, 74) == 0x01E02203 && Schedule(data, 75) == 0xE7CC3456
    ensures Schedule(data, 76) == 0xE6E60B69 && Schedule(data, 77) == 0x00F60A00
    ensures Schedule(data, 78) == 0x5795EF4F && Schedule(data, 79) == 0x822E0879
  {
    hide Schedule;
    Words64(data);
    Words56(data);
    NextWord(data, 72, 0x0060C000, 0x7CD45C9D, 0x458544D6, 0x651D16A0, 0xB8599DD6);
    NextWord(data, 73, 0x3A37CD05, 0x000F0000, 0x44584CB7, 0x62658CA1, 0x380A1A26);
    NextWord(data, 74, 0x458546F4, 0xFB50753A, 0x7BA06619, 0x458544D6, 0x01E02203);
    NextWord(data, 75, 0xB8599DD6, 0xEC6765E8, 0x6380AEA2, 0x44584CB7, 0xE7CC3456);
    NextWord(data, 76, 0x380A1A26, 0xBA3C2BE2, 0x0AE55269, 0x7BA06619, 0xE6E60B69);
    NextWord(data, 77, 0x01E02203, 0x0060C000, 0x627B49A1, 0x6380AEA2, 0x00F60A00);
    NextWord(data, 78, 0xE7CC3456, 0x3A37CD05, 0x7CD45C9D, 0x0AE55269, 0x5795EF4F);
    NextWord(data, 79, 0xE6E60B69, 0x458546F4, 0x000F0000, 0x627B49A1, 0x822E0879);
  }

  lemma NextRound(data: seq<Octet>, t: nat, h: Hash, w: bv32, g: Hash)
    requires |data| == 64 && t < 80 && Rounds(STANDARD, data, t) == h && Schedule(data, t) == w && Round(h, t, w) == g
    ensures Rounds(STANDARD, data, t + 1) == g
  {
  }

  lemma Rounds8(data: seq<Octet>)
    requires data == Abc()
    ensures Rounds(STANDARD, data, 8) == Hash(0x9E8C07D4, 0x993E30C1, 0x0FF1F290, 0xB3F52677, 0xF3763846)
  {
    hide Rounds;
    hide Schedule;
    hide Abc;
    StartOfRounds(data);
    FirstWords(data);
    NextRound(data, 0, Hash(0x67452301, 0xEFCDAB89, 0x98BADCFE, 0x10325476, 0xC3D2E1F0), 0x61626380,
              Hash(0x0116FC33, 0x67452301, 0x7BF36AE2, 0x98BADCFE, 0x10325476));
    NextRound(data, 1, Hash(0x0116FC33, 0x67452301, 0x7BF36AE2, 0x98BADCFE, 0x10325476), 0x00000000,
              Hash(0x8990536D, 0x0116FC33, 0x59D148C0, 0x7BF36AE2, 0x98BADCFE));
    NextRound(data, 2, Hash(0x8990536D, 0x0116FC33, 0x59D148C0, 0x7BF36AE2, 0x98BADCFE), 0x00000000,
              Hash(0xA1390F08, 0x8990536D, 0xC045BF0C, 0x59D148C0, 0x7BF36AE2));
    NextRound(data, 3, Hash(0xA1390F08, 0x8990536D, 0xC045BF0C, 0x59D148C0, 0x7BF36AE2), 0x00000000,
              Hash(0xCDD8E11B, 0xA1390F08, 0x626414DB, 0xC045BF0C, 0x59D148C0));
    NextRound(data, 4, Hash(0xCDD8E11B, 0xA1390F08, 0x626414DB, 0xC045BF0C, 0x59D148C0), 0x00000000,
              Hash(0xCFD499DE, 0xCDD8E11B, 0x284E43C2, 0x626414DB, 0xC045BF0C));
    NextRound(data, 5, Hash(0xCFD499DE, 0xCDD8E11B, 0x284E43C2, 0x626414DB, 0xC045BF0C), 0x00000000,
              Hash(0x3FC7CA40, 0xCFD499DE, 0xF3763846, 0x284E43C2, 0x626414DB));
    NextRound(data, 6, Hash(0x3FC7CA40, 0xCFD499DE, 0xF3763846, 0x284E43C2, 0x626414DB), 0x00000000,
              Hash(0x993E30C1, 0x3FC7CA40, 0xB3F52677, 0xF3763846, 0x284E43C2));
    NextRound(data, 7, Hash(0x993E30C1, 0x3FC7CA40, 0xB3F52677, 0xF3763846, 0x284E43C2), 0x00000000,
              Hash(0x9E8C07D4, 0x993E30C1, 0x0FF1F290, 0xB3F52677, 0xF3763846));
  }

  lemma Rounds16(data: seq<Octet>)
    requires data == Abc()
    ensures Rounds(STANDARD, data, 16) == Hash(0x20BDD62F, 0x196BEE77, 0x644A3DA5, 0x1181ED99, 0x18C623F9)
  {
    hide Rounds;
    hide Schedule;
    hide Abc;
    Rounds8(data);
    FirstWords(data);
    NextRound(data, 8, Hash(0x9E8C07D4, 0x993E30C1, 0x0FF1F290, 0xB3F52677, 0xF3763846), 0x00000000,
              Hash(0x4B6AE328, 0x9E8C07D4, 0x664F8C30, 0x0FF1F290, 0xB3F52677));
    NextRound(data, 9, Hash(0x4B6AE328, 0x9E8C07D4, 0x664F8C30, 0x0FF1F290, 0xB3F52677), 0x00000000,
              Hash(0x8351F929, 0x4B6AE328, 0x27A301F5, 0x664F8C30, 0x0FF1F290));
    NextRound(data, 10, Hash(0x8351F929, 0x4B6AE328, 0x27A301F5, 0x664F8C30, 0x0FF1F290), 0x00000000,
              Hash(0xFBDA9E89, 0x8351F929, 0x12DAB8CA, 0x27A301F5, 0x664F8C30));
    NextRound(data, 11, Hash(0xFBDA9E89, 0x8351F929, 0x12DAB8CA, 0x27A301F5, 0x664F8C30), 0x00000000,
              Hash(0x63188FE4, 0xFBDA9E89, 0x60D47E4A, 0x12DAB8CA, 0x27A301F5));
    NextRound(data, 12, Hash(0x63188FE4, 0xFBDA9E89, 0x60D47E4A, 0x12DAB8CA, 0x27A301F5), 0x00000000,
              Hash(0x4607B664, 0x63188FE4, 0x7EF6A7A2, 0x60D47E4A, 0x12DAB8CA));
    NextRound(data, 13, Hash(0x4607B664, 0x63188FE4, 0x7EF6A7A2, 0x60D47E4A, 0x12DAB8CA), 0x00000000,
              Hash(0x9128F695, 0x4607B664, 0x18C623F9, 0x7EF6A7A2, 0x60D47E4A));
    NextRound(data, 14, Hash(0x9128F695, 0x4607B664, 0x18C623F9, 0x7EF6A7A2, 0x60D47E4A), 0x00000000,
              Hash(0x196BEE77, 0x9128F695, 0x1181ED99, 0x18C623F9, 0x7EF6A7A2));
    NextRound(data, 15, Hash(0x196BEE77, 0x9128F695, 0x1181ED99, 0x18C623F9, 0x7EF6A7A2), 0x00000018,
              Hash(0x20BDD62F, 0x196BEE77, 0x644A3DA5, 0x1181ED99, 0x18C623F9));
  }

  lemma Rounds24(data: seq<Octet>)
    requires data == Abc()
    ensures Rounds(STANDARD, data, 24) == Hash(0xD541F12D, 0x21283486, 0x0CE88EFF, 0x868DEC32, 0x7F67875F)
  {
    hide Rounds;
    hide Schedule;
    hide Abc;
    Rounds16(data);
    Words16(data);
    NextRound(data, 16, Hash(0x20BDD62F, 0x196BEE77, 0x644A3DA5, 0x1181ED99, 0x18C623F9), 0xC2C4C700,
              Hash(0x4E925823, 0x20BDD62F, 0xC65AFB9D, 0x644A3DA5, 0x1181ED99));
    NextRound(data, 17, Hash(0x4E925823, 0x20BDD62F, 0xC65AFB9D, 0x644A3DA5, 0x1181ED99), 0x00000000,
              Hash(0x82AA6728, 0x4E925823, 0xC82F758B, 0xC65AFB9D, 0x644A3DA5));
    NextRound(data, 18, Hash(0x82AA6728, 0x4E925823, 0xC82F758B, 0xC65AFB9D, 0x644A3DA5), 0x00000030,
              Hash(0xDC64901D, 0x82AA6728, 0xD3A49608, 0xC82F758B, 0xC65AFB9D));
    NextRound(data, 19, Hash(0xDC64901D, 0x82AA6728, 0xD3A49608, 0xC82F758B, 0xC65AFB9D), 0x85898E01,
              Hash(0xFD9E1D7D, 0xDC64901D, 0x20AA99CA, 0xD3A49608, 0xC82F758B));
    NextRound(data, 20, Hash(0xFD9E1D7D, 0xDC64901D, 0x20AA99CA, 0xD3A49608, 0xC82F758B), 0x00000000,
              Hash(0x1A37B0CA, 0xFD9E1D7D, 0x77192407, 0x20AA99CA, 0xD3A49608));
    NextRound(data, 21, Hash(0x1A37B0CA, 0xFD9E1D7D, 0x77192407, 0x20AA99CA, 0xD3A49608), 0x00000060,
              Hash(0x33A23BFC, 0x1A37B0CA, 0x7F67875F, 0x77192407, 0x20AA99CA));
    NextRound(data, 22, Hash(0x33A23BFC, 0x1A37B0CA, 0x7F67875F, 0x77192407, 0x20AA99CA), 0x0B131C03,
              Hash(0x21283486, 0x33A23BFC, 0x868DEC32, 0x7F67875F, 0x77192407));
    NextRound(data, 23, Hash(0x21283486, 0x33A23BFC, 0x868DEC32, 0x7F67875F, 0x77192407), 0x00000030,
              Hash(0xD541F12D, 0x21283486, 0x0CE88EFF, 0x868DEC32, 0x7F67875F));
  }

  lemma Rounds32(data: seq<Octet>)
    requires data == Abc()
    ensures Rounds(STANDARD, data, 32) == Hash(0x3B845D33, 0x1267B407, 0x717EEBD7, 0xA0DC2D4B, 0xD2AA1365)
  {
    hide Rounds;
    hide Schedule;
    hide Abc;
    Rounds24(data);
    Words24(data);
    NextRound(data, 24, Hash(0xD541F12D, 0x21283486, 0x0CE88EFF, 0x868DEC32, 0x7F67875F), 0x85898EC1,
              Hash(0xC7567DC6, 0xD541F12D, 0x884A0D21, 0x0CE88EFF, 0x868DEC32));
    NextRound(data, 25, Hash(0xC7567DC6, 0xD541F12D, 0x884A0D21, 0x0CE88EFF, 0x868DEC32), 0x16263806,
              Hash(0x48413BA4, 0xC7567DC6, 0x75507C4B, 0x884A0D21, 0x0CE88EFF));
    NextRound(data, 26, Hash(0x48413BA4, 0xC7567DC6, 0x75507C4B, 0x884A0D21, 0x0CE88EFF), 0x00000000,
              Hash(0xBE35FBD5, 0x48413BA4, 0xB1D59F71, 0x75507C4B, 0x884A0D21));
    NextRound(data, 27, Hash(0xBE35FBD5, 0x48413BA4, 0xB1D59F71, 0x75507C4B, 0x884A0D21), 0x00000180,
              Hash(0x4AA84D97, 0xBE35FBD5, 0x12104EE9, 0xB1D59F71, 0x75507C4B));
    NextRound(data, 28, Hash(0x4AA84D97, 0xBE35FBD5, 0x12104EE9, 0xB1D59F71, 0x75507C4B), 0x2C4C700C,
              Hash(0x8370B52E, 0x4AA84D97, 0x6F8D7EF5, 0x12104EE9, 0xB1D59F71));
    NextRound(data, 29, Hash(0x8370B52E, 0x4AA84D97, 0x6F8D7EF5, 0x12104EE9, 0xB1D59F71), 0x000000F0,
              Hash(0xC5FBAF5D, 0x8370B52E, 0xD2AA1365, 0x6F8D7EF5, 0x12104EE9));
    NextRound(data, 30, Hash(0xC5FBAF5D, 0x8370B52E, 0xD2AA1365, 0x6F8D7EF5, 0x12104EE9), 0x93AFB507,
              Hash(0x1267B407, 0xC5FBAF5D, 0xA0DC2D4B, 0xD2AA1365, 0x6F8D7EF5));
    NextRound(data, 31, Hash(0x1267B407, 0xC5FBAF5D, 0xA0DC2D4B, 0xD2AA1365, 0x6F8D7EF5), 0x5898E048,
              Hash(0x3B845D33, 0x1267B407, 0x717EEBD7, 0xA0DC2D4B, 0xD2AA1365));
  }

  lemma Rounds40(data: seq<Octet>)
    requires data == Abc()
    ensures Rounds(STANDARD, data, 40) == Hash(0x32DE1CBA, 0x4C986405, 0xF718E5CF, 0x03D447F6, 0xF72EEC32)
  {
    hide Rounds;
    hide Schedule;
    hide Abc;
    Rounds32(data);
    Words32(data);
    NextRound(data, 32, Hash(0x3B845D33, 0x1267B407, 0x717EEBD7, 0xA0DC2D4B, 0xD2AA1365), 0x8E9A9202,
              Hash(0x046FAA0A, 0x3B845D33, 0xC499ED01, 0x717EEBD7, 0xA0DC2D4B));
    NextRound(data, 33, Hash(0x046FAA0A, 0x3B845D33, 0xC499ED01, 0x717EEBD7, 0xA0DC2D4B), 0x00000600,
              Hash(0x2C0EBC11, 0x046FAA0A, 0xCEE1174C, 0xC499ED01, 0x717EEBD7));
    NextRound(data, 34, Hash(0x2C0EBC11, 0x046FAA0A, 0xCEE1174C, 0xC499ED01, 0x717EEBD7), 0xB131C0F0,
              Hash(0x21796AD4, 0x2C0EBC11, 0x811BEA82, 0xCEE1174C, 0xC499ED01));
    NextRound(data, 35, Hash(0x21796AD4, 0x2C0EBC11, 0x811BEA82, 0xCEE1174C, 0xC499ED01), 0x16263BC6,
              Hash(0xDCBBB0CB, 0x21796AD4, 0x4B03AF04, 0x811BEA82, 0xCEE1174C));
    NextRound(data, 36, Hash(0xDCBBB0CB, 0x21796AD4, 0x4B03AF04, 0x811BEA82, 0xCEE1174C), 0x4EBED41E,
              Hash(0x0F511FD8, 0xDCBBB0CB, 0x085E5AB5, 0x4B03AF04, 0x811BEA82));
    NextRound(data, 37, Hash(0x0F511FD8, 0xDCBBB0CB, 0x085E5AB5, 0x4B03AF04, 0x811BEA82), 0x626380A1,
              Hash(0xDC63973F, 0x0F511FD8, 0xF72EEC32, 0x085E5AB5, 0x4B03AF04));
    NextRound(data, 38, Hash(0xDC63973F, 0x0F511FD8, 0xF72EEC32, 0x085E5AB5, 0x4B03AF04), 0x16263806,
              Hash(0x4C986405, 0xDC63973F, 0x03D447F6, 0xF72EEC32, 0x085E5AB5));
    NextRound(data, 39, Hash(0x4C986405, 0xDC63973F, 0x03D447F6, 0xF72EEC32, 0x085E5AB5), 0x000018C0,
              Hash(0x32DE1CBA, 0x4C986405, 0xF718E5CF, 0x03D447F6, 0xF72EEC32));
  }

  lemma Rounds48(data: seq<Octet>)
    requires data == Abc()
    ensures Rounds(STANDARD, data, 48) == Hash(0xBEAD02CA, 0xA01B846C, 0x8714787C, 0x503CA382, 0xFB86C6AB)
  {
    hide Rounds;
    hide Schedule;
    hide Abc;
    Rounds40(data);
    Words40(data);
    NextRound(data, 40, Hash(0x32DE1CBA, 0x4C986405, 0xF718E5CF, 0x03D447F6, 0xF72EEC32), 0xD2E138C4,
              Hash(0xFC87DEDF, 0x32DE1CBA, 0x53261901, 0xF718E5CF, 0x03D447F6));
    NextRound(data, 41, Hash(0xFC87DEDF, 0x32DE1CBA, 0x53261901, 0xF718E5CF, 0x03D447F6), 0x00000F00,
              Hash(0x970A0D5C, 0xFC87DEDF, 0x8CB7872E, 0x53261901, 0xF718E5CF));
    NextRound(data, 42, Hash(0x970A0D5C, 0xFC87DEDF, 0x8CB7872E, 0x53261901, 0xF718E5CF), 0x3AFB5079,
              Hash(0x7F193DC5, 0x970A0D5C, 0xFF21F7B7, 0x8CB7872E, 0x53261901));
    NextRound(data, 43, Hash(0x7F193DC5, 0x970A0D5C, 0xFF21F7B7, 0x8CB7872E, 0x53261901), 0x898E04E5,
              Hash(0xEE1B1AAF, 0x7F193DC5, 0x25C28357, 0xFF21F7B7, 0x8CB7872E));
    NextRound(data, 44, Hash(0xEE1B1AAF, 0x7F193DC5, 0x25C28357, 0xFF21F7B7, 0x8CB7872E), 0xE2BA3C2B,
              Hash(0x40F28E09, 0xEE1B1AAF, 0x5FC64F71, 0x25C28357, 0xFF21F7B7));
    NextRound(data, 45, Hash(0x40F28E09, 0xEE1B1AAF, 0x5FC64F71, 0x25C28357, 0xFF21F7B7), 0x000060C0,
              Hash(0x1C51E1F2, 0x40F28E09, 0xFB86C6AB, 0x5FC64F71, 0x25C28357));
    NextRound(data, 46, Hash(0x1C51E1F2, 0x40F28E09, 0xFB86C6AB, 0x5FC64F71, 0x25C28357), 0x053A37CD,
              Hash(0xA01B846C, 0x1C51E1F2, 0x503CA382, 0xFB86C6AB, 0x5FC64F71));
    NextRound(data, 47, Hash(0xA01B846C, 0x1C51E1F2, 0x503CA382, 0xFB86C6AB, 0x5FC64F71), 0x74458547,
              Hash(0xBEAD02CA, 0xA01B846C, 0x8714787C, 0x503CA382, 0xFB86C6AB));
  }

  lemma Rounds56(data: seq<Octet>)
    requires data == Abc()
    ensures Rounds(STANDARD, data, 56) == Hash(0x5E6456AF, 0x7B71F76D, 0x09FA7C76, 0x792410DB, 0x8E11EB59)
  {
    hide Rounds;
    hide Schedule;
    hide Abc;
    Rounds48(data);
    Words48(data);
    NextRound(data, 48, Hash(0xBEAD02CA, 0xA01B846C, 0x8714787C, 0x503CA382, 0xFB86C6AB), 0xDA9415ED,
              Hash(0xBAF39337, 0xBEAD02CA, 0x2806E11B, 0x8714787C, 0x503CA382));
    NextRound(data, 49, Hash(0xBAF39337, 0xBEAD02CA, 0x2806E11B, 0x8714787C, 0x503CA382), 0x26380A16,
              Hash(0x120731C5, 0xBAF39337, 0xAFAB40B2, 0x2806E11B, 0x8714787C));
    NextRound(data, 50, Hash(0x120731C5, 0xBAF39337, 0xAFAB40B2, 0x2806E11B, 0x8714787C), 0x626383A1,
              Hash(0x641DB2CE, 0x120731C5, 0xEEBCE4CD, 0xAFAB40B2, 0x2806E11B));
    NextRound(data, 51, Hash(0x641DB2CE, 0x120731C5, 0xEEBCE4CD, 0xAFAB40B2, 0x2806E11B), 0x4EBF54DE,
              Hash(0x3847AD66, 0x641DB2CE, 0x4481CC71, 0xEEBCE4CD, 0xAFAB40B2));
    NextRound(data, 52, Hash(0x3847AD66, 0x641DB2CE, 0x4481CC71, 0xEEBCE4CD, 0xAFAB40B2), 0x3835B44B,
              Hash(0xE490436D, 0x3847AD66, 0x99076CB3, 0x4481CC71, 0xEEBCE4CD));
    NextRound(data, 53, Hash(0xE490436D, 0x3847AD66, 0x99076CB3, 0x4481CC71, 0xEEBCE4CD), 0x0000F600,
              Hash(0x27E9F1D8, 0xE490436D, 0x8E11EB59, 0x99076CB3, 0x4481CC71));
    NextRound(data, 54, Hash(0x27E9F1D8, 0xE490436D, 0x8E11EB59, 0x99076CB3, 0x4481CC71), 0x1E84C7A3,
              Hash(0x7B71F76D, 0x27E9F1D8, 0x792410DB, 0x8E11EB59, 0x99076CB3));
    NextRound(data, 55, Hash(0x7B71F76D, 0x27E9F1D8, 0x792410DB, 0x8E11EB59, 0x99076CB3), 0x98E04D98,
              Hash(0x5E6456AF, 0x7B71F76D, 0x09FA7C76, 0x792410DB, 0x8E11EB59));
  }

  lemma Rounds64(data: seq<Octet>)
    requires data == Abc()
    ensures Rounds(STANDARD, data, 64) == Hash(0x6B61C9E1, 0xB66C020B, 0x9523272C, 0xF5D5B051, 0x8FD4B796)
  {
    hide Rounds;
    hide Schedule;
    hide Abc;
    Rounds56(data);
    Words56(data);
    NextRound(data, 56, Hash(0x5E6456AF, 0x7B71F76D, 0x09FA7C76, 0x792410DB, 0x8E11EB59), 0x651D16A0,
              Hash(0xC846093F, 0x5E6456AF, 0x5EDC7DDB, 0x09FA7C76, 0x792410DB));
    NextRound(data, 57, Hash(0xC846093F, 0x5E6456AF, 0x5EDC7DDB, 0x09FA7C76, 0x792410DB), 0x62658CA1,
              Hash(0xD262FF50, 0xC846093F, 0xD79915AB, 0x5EDC7DDB, 0x09FA7C76));
    NextRound(data, 58, Hash(0xD262FF50, 0xC846093F, 0xD79915AB, 0x5EDC7DDB, 0x09FA7C76), 0x458544D6,
              Hash(0x09D785FD, 0xD262FF50, 0xF211824F, 0xD79915AB, 0x5EDC7DDB));
    NextRound(data, 59, Hash(0x09D785FD, 0xD262FF50, 0xF211824F, 0xD79915AB, 0x5EDC7DDB), 0x44584CB7,
              Hash(0x3F52DE5A, 0x09D785FD, 0x3498BFD4, 0xF211824F, 0xD79915AB));
    NextRound(data, 60, Hash(0x3F52DE5A, 0x09D785FD, 0x3498BFD4, 0xF211824F, 0xD79915AB), 0x7BA06619,
              Hash(0xD756C147, 0x3F52DE5A, 0x4275E17F, 0x3498BFD4, 0xF211824F));
    NextRound(data, 61, Hash(0xD756C147, 0x3F52DE5A, 0x4275E17F, 0x3498BFD4, 0xF211824F), 0x6380AEA2,
              Hash(0x548C9CB2, 0xD756C147, 0x8FD4B796, 0x4275E17F, 0x3498BFD4));
    NextRound(data, 62, Hash(0x548C9CB2, 0xD756C147, 0x8FD4B796, 0x4275E17F, 0x3498BFD4), 0x0AE55269,
              Hash(0xB66C020B, 0x548C9CB2, 0xF5D5B051, 0x8FD4B796, 0x4275E17F));
    NextRound(data, 63, Hash(0xB66C020B, 0x548C9CB2, 0xF5D5B051, 0x8FD4B796, 0x4275E17F), 0x627B49A1,
              Hash(0x6B61C9E1, 0xB66C020B, 0x9523272C, 0xF5D5B051, 0x8FD4B796));
  }

  lemma Rounds72(data: seq<Octet>)
    requires data == Abc()
    ensures Rounds(STANDARD, data, 72) == Hash(0x39859DE7, 0xC199F8C7, 0x8FC96230, 0x125C24F0, 0xDE37534A)
  {
    hide Rounds;
    hide Schedule;
    hide Abc;
    Rounds64(data);
    Words64(data);
    NextRound(data, 64, Hash(0x6B61C9E1, 0xB66C020B, 0x9523272C, 0xF5D5B051, 0x8FD4B796), 0x7CD45C9D,
              Hash(0x19DFA7AC, 0x6B61C9E1, 0xED9B0082, 0x9523272C, 0xF5D5B051));
    NextRound(data, 65, Hash(0x19DFA7AC, 0x6B61C9E1, 0xED9B0082, 0x9523272C, 0xF5D5B051), 0x000F0000,
              Hash(0x101655F9, 0x19DFA7AC, 0x5AD87278, 0xED9B0082, 0x9523272C));
    NextRound(data, 66, Hash(0x101655F9, 0x19DFA7AC, 0x5AD87278, 0xED9B0082, 0x9523272C), 0xFB50753A,
              Hash(0x0C3DF2B4, 0x101655F9, 0x0677E9EB, 0x5AD87278, 0xED9B0082));
    NextRound(data, 67, Hash(0x0C3DF2B4, 0x101655F9, 0x0677E9EB, 0x5AD87278, 0xED9B0082), 0xEC6765E8,
              Hash(0x78DD4D2B, 0x0C3DF2B4, 0x4405957E, 0x0677E9EB, 0x5AD87278));
    NextRound(data, 68, Hash(0x78DD4D2B, 0x0C3DF2B4, 0x4405957E, 0x0677E9EB, 0x5AD87278), 0xBA3C2BE2,
              Hash(0x497093C0, 0x78DD4D2B, 0x030F7CAD, 0x4405957E, 0x0677E9EB));
    NextRound(data, 69, Hash(0x497093C0, 0x78DD4D2B, 0x030F7CAD, 0x4405957E, 0x0677E9EB), 0x0060C000,
              Hash(0x3F2588C2, 0x497093C0, 0xDE37534A, 0x030F7CAD, 0x4405957E));
    NextRound(data, 70, Hash(0x3F2588C2, 0x497093C0, 0xDE37534A, 0x030F7CAD, 0x4405957E), 0x3A37CD05,
              Hash(0xC199F8C7, 0x3F2588C2, 0x125C24F0, 0xDE37534A, 0x030F7CAD));
    NextRound(data, 71, Hash(0xC199F8C7, 0x3F2588C2, 0x125C24F0, 0xDE37534A, 0x030F7CAD), 0x458546F4,
              Hash(0x39859DE7, 0xC199F8C7, 0x8FC96230, 0x125C24F0, 0xDE37534A));
  }

  lemma Rounds80(data: seq<Octet>)
    requires data == Abc()
    ensures Rounds(STANDARD, data, 80) == Hash(0x42541B35, 0x5738D5E1, 0x21834873, 0x681E6DF6, 0xD8FDF6AD)
  {
    hide Rounds;
    hide Schedule;
    hide Abc;
    Rounds72(data);
    Words72(data);
    NextRound(data, 72, Hash(0x39859DE7, 0xC199F8C7, 0x8FC96230, 0x125C24F0, 0xDE37534A), 0xB8599DD6,
              Hash(0xEDB42DE4, 0x39859DE7, 0xF0667E31, 0x8FC96230, 0x125C24F0));
    NextRound(data, 73, Hash(0xEDB42DE4, 0x39859DE7, 0xF0667E31, 0x8FC96230, 0x125C24F0), 0x380A1A26,
              Hash(0x11793F6F, 0xEDB42DE4, 0xCE616779, 0xF0667E31, 0x8FC96230));
    NextRound(data, 74, Hash(0x11793F6F, 0xEDB42DE4, 0xCE616779, 0xF0667E31, 0x8FC96230), 0x01E02203,
              Hash(0x5EE76897, 0x11793F6F, 0x3B6D0B79, 0xCE616779, 0xF0667E31));
    NextRound(data, 75, Hash(0x5EE76897, 0x11793F6F, 0x3B6D0B79, 0xCE616779, 0xF0667E31), 0xE7CC3456,
              Hash(0x63F7DAB7, 0x5EE76897, 0xC45E4FDB, 0x3B6D0B79, 0xCE616779));
    NextRound(data, 76, Hash(0x63F7DAB7, 0x5EE76897, 0xC45E4FDB, 0x3B6D0B79, 0xCE616779), 0xE6E60B69,
              Hash(0xA079B7D9, 0x63F7DAB7, 0xD7B9DA25, 0xC45E4FDB, 0x3B6D0B79));
    NextRound(data, 77, Hash(0xA079B7D9, 0x63F7DAB7, 0xD7B9DA25, 0xC45E4FDB, 0x3B6D0B79), 0x00F60A00,
              Hash(0x860D21CC, 0xA079B7D9, 0xD8FDF6AD, 0xD7B9DA25, 0xC45E4FDB));
    NextRound(data, 78, Hash(0x860D21CC, 0xA079B7D9, 0xD8FDF6AD, 0xD7B9DA25, 0xC45E4FDB), 0x5795EF4F,
              Hash(0x5738D5E1, 0x860D21CC, 0x681E6DF6, 0xD8FDF6AD, 0xD7B9DA25));
    NextRound(data, 79, Hash(0x5738D5E1, 0x860D21CC, 0x681E6DF6, 0xD8FDF6AD, 0xD7B9DA25), 0x822E0879,
              Hash(0x42541B35, 0x5738D5E1, 0x21834873, 0x681E6DF6, 0xD8FDF6AD));
  }

  lemma StartOfRounds(data: seq<Octet>)
    requires |data| == 64
    ensures Rounds(STANDARD, data, 0) == STANDARD
  {
  }

  /** The digest the standard gives for "abc". */
  lemma KnownAnswer()
    ensures Compress(STANDARD, Abc()) == Hash(0xA9993E36, 0x4706816A, 0xBA3E2571, 0x7850C26C, 0x9CD0D89D)
  {
    hide Rounds;
    Rounds80(Abc());
  }
}
