/** The worked example of FIPS 180-1, appendix A: the digest of "abc", round by round. It fixes
    every constant and rotation that the code and the standard's functions share.  */
module Sha1Example {
  import opened ByteOrder
  import opened Sha1Digest

  const ABC: seq<Byte> := [0x61, 0x62, 0x63]

  /** The padded message, one block. */
  const M1: seq<Byte> := [0x61, 0x62, 0x63, 0x80] + Zeros(52) + [0x00, 0x00, 0x00, 0x00, 0x00, 0x00, 0x00, 0x18]

  lemma Rotations(v: Word)
    ensures Rotl(v, 1) == (v << 1) | (v >> 31)
    ensures Rotl(v, 5) == (v << 5) | (v >> 27)
    ensures Rotl(v, 30) == (v << 30) | (v >> 2)
  {
  }

  lemma Quarters(t: nat, b: Word, c: Word, d: Word)
    ensures F(t, b, c, d) ==
            if t < 20 then (b & c) | (!b & d) else if 40 <= t < 60 then (b & c) | (b & d) | (c & d) else b ^ c ^ d
    ensures K(t) ==
            if t < 20 then 0x5A827999 else if t < 40 then 0x6ED9EBA1 else if t < 60 then 0x8F1BBCDC else 0xCA62C1D6
  {
  }

  /** One round, written out on its words. */
  lemma Turn(t: nat, a: Word, b: Word, c: Word, d: Word, e: Word, w: Word)
    requires Rounds(INITIAL, M1, t) == Chaining(a, b, c, d, e) && W(M1, t) == w
    ensures Rounds(INITIAL, M1, t + 1) ==
            var f := if t < 20 then (b & c) | (!b & d) else if 40 <= t < 60 then (b & c) | (b & d) | (c & d) else b ^ c ^ d;
            var k := if t < 20 then 0x5A827999 else if t < 40 then 0x6ED9EBA1 else if t < 60 then 0x8F1BBCDC else 0xCA62C1D6;
            Chaining(Plus(Plus(Plus(Plus((a << 5) | (a >> 27), f), e), k), w), a, (b << 30) | (b >> 2), c, d)
  {
    hide W, F, K, Rotl, Plus;
    Rotations(a);
    Rotations(b);
    Quarters(t, b, c, d);
  }

  lemma FirstWords()
    ensures W(M1, 0) == 0x61626380 && W(M1, 15) == 0x00000018
    ensures forall t :: 1 <= t < 15 ==> W(M1, t) == 0
  {
    hide Join;
    Joins();
  }

  lemma Joins()
    ensures Join(0x61, 0x62, 0x63, 0x80) == 0x61626380 && Join(0, 0, 0, 0x18) == 0x18 && Join(0, 0, 0, 0) == 0
  {
  }

  /** A word of the schedule, from the four words it is mixed of. */
  lemma Mixed(t: nat, w3: Word, w8: Word, w14: Word, w16: Word)
    requires t >= 16 && W(M1, t - 3) == w3 && W(M1, t - 8) == w8
    requires W(M1, t - 14) == w14 && W(M1, t - 16) == w16
    ensures W(M1, t) == ((w3 ^ w8 ^ w14 ^ w16) << 1) | ((w3 ^ w8 ^ w14 ^ w16) >> 31)
  {
    hide Rotl, Join;
    Rotations(w3 ^ w8 ^ w14 ^ w16);
  }

  // ---- The message schedule ----

  lemma Words32()
    ensures W(M1, 16) == 0xC2C4C700 && W(M1, 17) == 0x00000000 && W(M1, 18) == 0x00000030 && W(M1, 19) == 0x85898E01
    ensures W(M1, 20) == 0x00000000 && W(M1, 21) == 0x00000060 && W(M1, 22) == 0x0B131C03 && W(M1, 23) == 0x00000030
    ensures W(M1, 24) == 0x85898EC1 && W(M1, 25) == 0x16263806 && W(M1, 26) == 0x00000000 && W(M1, 27) == 0x00000180
    ensures W(M1, 28) == 0x2C4C700C && W(M1, 29) == 0x000000F0 && W(M1, 30) == 0x93AFB507 && W(M1, 31) == 0x5898E048
  {
    hide W;
    FirstWords();
    Mixed(16, 0x00000000, 0x00000000, 0x00000000, 0x61626380);
    Mixed(17, 0x00000000, 0x00000000, 0x00000000, 0x00000000);
    Mixed(18, 0x00000018, 0x00000000, 0x00000000, 0x00000000);
    Mixed(19, 0xC2C4C700, 0x00000000, 0x00000000, 0x00000000);
    Mixed(20, 0x00000000, 0x00000000, 0x00000000, 0x00000000);
    Mixed(21, 0x00000030, 0x00000000, 0x00000000, 0x00000000);
    Mixed(22, 0x85898E01, 0x00000000, 0x00000000, 0x00000000);
    Mixed(23, 0x00000000, 0x00000018, 0x00000000, 0x00000000);
    Mixed(24, 0x00000060, 0xC2C4C700, 0x00000000, 0x00000000);
    Mixed(25, 0x0B131C03, 0x00000000, 0x00000000, 0x00000000);
    Mixed(26, 0x00000030, 0x00000030, 0x00000000, 0x00000000);
    Mixed(27, 0x85898EC1, 0x85898E01, 0x00000000, 0x00000000);
    Mixed(28, 0x16263806, 0x00000000, 0x00000000, 0x00000000);
    Mixed(29, 0x00000000, 0x00000060, 0x00000018, 0x00000000);
    Mixed(30, 0x00000180, 0x0B131C03, 0xC2C4C700, 0x00000000);
    Mixed(31, 0x2C4C700C, 0x00000030, 0x00000000, 0x00000018);
  }

  lemma Words48()
    ensures W(M1, 32) == 0x8E9A9202 && W(M1, 33) == 0x00000600 && W(M1, 34) == 0xB131C0F0 && W(M1, 35) == 0x16263BC6
    ensures W(M1, 36) == 0x4EBED41E && W(M1, 37) == 0x626380A1 && W(M1, 38) == 0x16263806 && W(M1, 39) == 0x000018C0
    ensures W(M1, 40) == 0xD2E138C4 && W(M1, 41) == 0x00000F00 && W(M1, 42) == 0x3AFB5079 && W(M1, 43) == 0x898E04E5
    ensures W(M1, 44) == 0xE2BA3C2B && W(M1, 45) == 0x000060C0 && W(M1, 46) == 0x053A37CD && W(M1, 47) == 0x74458547
  {
    hide W;
    Words32();
    Mixed(32, 0x000000F0, 0x85898EC1, 0x00000030, 0xC2C4C700);
    Mixed(33, 0x93AFB507, 0x16263806, 0x85898E01, 0x00000000);
    Mixed(34, 0x5898E048, 0x00000000, 0x00000000, 0x00000030);
    Mixed(35, 0x8E9A9202, 0x00000180, 0x00000060, 0x85898E01);
    Mixed(36, 0x00000600, 0x2C4C700C, 0x0B131C03, 0x00000000);
    Mixed(37, 0xB131C0F0, 0x000000F0, 0x00000030, 0x00000060);
    Mixed(38, 0x16263BC6, 0x93AFB507, 0x85898EC1, 0x0B131C03);
    Mixed(39, 0x4EBED41E, 0x5898E048, 0x16263806, 0x00000030);
    Mixed(40, 0x626380A1, 0x8E9A9202, 0x00000000, 0x85898EC1);
    Mixed(41, 0x16263806, 0x00000600, 0x00000180, 0x16263806);
    Mixed(42, 0x000018C0, 0xB131C0F0, 0x2C4C700C, 0x00000000);
    Mixed(43, 0xD2E138C4, 0x16263BC6, 0x000000F0, 0x00000180);
    Mixed(44, 0x00000F00, 0x4EBED41E, 0x93AFB507, 0x2C4C700C);
    Mixed(45, 0x3AFB5079, 0x626380A1, 0x5898E048, 0x000000F0);
    Mixed(46, 0x898E04E5, 0x16263806, 0x8E9A9202, 0x93AFB507);
    Mixed(47, 0xE2BA3C2B, 0x000018C0, 0x00000600, 0x5898E048);
  }

  lemma Words64()
    ensures W(M1, 48) == 0xDA9415ED && W(M1, 49) == 0x26380A16 && W(M1, 50) == 0x626383A1 && W(M1, 51) == 0x4EBF54DE
    ensures W(M1, 52) == 0x3835B44B && W(M1, 53) == 0x0000F600 && W(M1, 54) == 0x1E84C7A3 && W(M1, 55) == 0x98E04D98
    ensures W(M1, 56) == 0x651D16A0 && W(M1, 57) == 0x62658CA1 && W(M1, 58) == 0x458544D6 && W(M1, 59) == 0x44584CB7
    ensures W(M1, 60) == 0x7BA06619 && W(M1, 61) == 0x6380AEA2 && W(M1, 62) == 0x0AE55269 && W(M1, 63) == 0x627B49A1
  {
    hide W;
    Words48();
    Mixed(48, 0x000060C0, 0xD2E138C4, 0xB131C0F0, 0x8E9A9202);
    Mixed(49, 0x053A37CD, 0x00000F00, 0x16263BC6, 0x00000600);
    Mixed(50, 0x74458547, 0x3AFB5079, 0x4EBED41E, 0xB131C0F0);
    Mixed(51, 0xDA9415ED, 0x898E04E5, 0x626380A1, 0x16263BC6);
    Mixed(52, 0x26380A16, 0xE2BA3C2B, 0x16263806, 0x4EBED41E);
    Mixed(53, 0x626383A1, 0x000060C0, 0x000018C0, 0x626380A1);
    Mixed(54, 0x4EBF54DE, 0x053A37CD, 0xD2E138C4, 0x16263806);
    Mixed(55, 0x3835B44B, 0x74458547, 0x00000F00, 0x000018C0);
    Mixed(56, 0x0000F600, 0xDA9415ED, 0x3AFB5079, 0xD2E138C4);
    Mixed(57, 0x1E84C7A3, 0x26380A16, 0x898E04E5, 0x00000F00);
    Mixed(58, 0x98E04D98, 0x626383A1, 0xE2BA3C2B, 0x3AFB5079);
    Mixed(59, 0x651D16A0, 0x4EBF54DE, 0x000060C0, 0x898E04E5);
    Mixed(60, 0x62658CA1, 0x3835B44B, 0x053A37CD, 0xE2BA3C2B);
    Mixed(61, 0x458544D6, 0x0000F600, 0x74458547, 0x000060C0);
    Mixed(62, 0x44584CB7, 0x1E84C7A3, 0xDA9415ED, 0x053A37CD);
    Mixed(63, 0x7BA06619, 0x98E04D98, 0x26380A16, 0x74458547);
  }

  lemma Words80()
    ensures W(M1, 64) == 0x7CD45C9D && W(M1, 65) == 0x000F0000 && W(M1, 66) == 0xFB50753A && W(M1, 67) == 0xEC6765E8
    ensures W(M1, 68) == 0xBA3C2BE2 && W(M1, 69) == 0x0060C000 && W(M1, 70) == 0x3A37CD05 && W(M1, 71) == 0x458546F4
    ensures W(M1, 72) == 0xB8599DD6 && W(M1, 73) == 0x380A1A26 && W(M1, 74) == 0x01E02203 && W(M1, 75) == 0xE7CC3456
    ensures W(M1, 76) == 0xE6E60B69 && W(M1, 77) == 0x00F60A00 && W(M1, 78) == 0x5795EF4F && W(M1, 79) == 0x822E0879
  {
    hide W;
    Words64();
    Mixed(64, 0x6380AEA2, 0x651D16A0, 0x626383A1, 0xDA9415ED);
    Mixed(65, 0x0AE55269, 0x62658CA1, 0x4EBF54DE, 0x26380A16);
    Mixed(66, 0x627B49A1, 0x458544D6, 0x3835B44B, 0x626383A1);
    Mixed(67, 0x7CD45C9D, 0x44584CB7, 0x0000F600, 0x4EBF54DE);
    Mixed(68, 0x000F0000, 0x7BA06619, 0x1E84C7A3, 0x3835B44B);
    Mixed(69, 0xFB50753A, 0x6380AEA2, 0x98E04D98, 0x0000F600);
    Mixed(70, 0xEC6765E8, 0x0AE55269, 0x651D16A0, 0x1E84C7A3);
    Mixed(71, 0xBA3C2BE2, 0x627B49A1, 0x62658CA1, 0x98E04D98);
    Mixed(72, 0x0060C000, 0x7CD45C9D, 0x458544D6, 0x651D16A0);
    Mixed(73, 0x3A37CD05, 0x000F0000, 0x44584CB7, 0x62658CA1);
    Mixed(74, 0x458546F4, 0xFB50753A, 0x7BA06619, 0x458544D6);
    Mixed(75, 0xB8599DD6, 0xEC6765E8, 0x6380AEA2, 0x44584CB7);
    Mixed(76, 0x380A1A26, 0xBA3C2BE2, 0x0AE55269, 0x7BA06619);
    Mixed(77, 0x01E02203, 0x0060C000, 0x627B49A1, 0x6380AEA2);
    Mixed(78, 0xE7CC3456, 0x3A37CD05, 0x7CD45C9D, 0x0AE55269);
    Mixed(79, 0xE6E60B69, 0x458546F4, 0x000F0000, 0x627B49A1);
  }

  // ---- The rounds ----

  lemma Rounds20()
    ensures Rounds(INITIAL, M1, 20) == Chaining(0xFD9E1D7D, 0xDC64901D, 0x20AA99CA, 0xD3A49608, 0xC82F758B)
  {
    hide Rounds, W;
    Initially();
    FirstWords();
    Words32();
    Turn(0, 0x67452301, 0xEFCDAB89, 0x98BADCFE, 0x10325476, 0xC3D2E1F0, 0x61626380);
    Turn(1, 0x0116FC33, 0x67452301, 0x7BF36AE2, 0x98BADCFE, 0x10325476, 0x00000000);
    Turn(2, 0x8990536D, 0x0116FC33, 0x59D148C0, 0x7BF36AE2, 0x98BADCFE, 0x00000000);
    Turn(3, 0xA1390F08, 0x8990536D, 0xC045BF0C, 0x59D148C0, 0x7BF36AE2, 0x00000000);
    Turn(4, 0xCDD8E11B, 0xA1390F08, 0x626414DB, 0xC045BF0C, 0x59D148C0, 0x00000000);
    Turn(5, 0xCFD499DE, 0xCDD8E11B, 0x284E43C2, 0x626414DB, 0xC045BF0C, 0x00000000);
    Turn(6, 0x3FC7CA40, 0xCFD499DE, 0xF3763846, 0x284E43C2, 0x626414DB, 0x00000000);
    Turn(7, 0x993E30C1, 0x3FC7CA40, 0xB3F52677, 0xF3763846, 0x284E43C2, 0x00000000);
    Turn(8, 0x9E8C07D4, 0x993E30C1, 0x0FF1F290, 0xB3F52677, 0xF3763846, 0x00000000);
    Turn(9, 0x4B6AE328, 0x9E8C07D4, 0x664F8C30, 0x0FF1F290, 0xB3F52677, 0x00000000);
    Turn(10, 0x8351F929, 0x4B6AE328, 0x27A301F5, 0x664F8C30, 0x0FF1F290, 0x00000000);
    Turn(11, 0xFBDA9E89, 0x8351F929, 0x12DAB8CA, 0x27A301F5, 0x664F8C30, 0x00000000);
    Turn(12, 0x63188FE4, 0xFBDA9E89, 0x60D47E4A, 0x12DAB8CA, 0x27A301F5, 0x00000000);
    Turn(13, 0x4607B664, 0x63188FE4, 0x7EF6A7A2, 0x60D47E4A, 0x12DAB8CA, 0x00000000);
    Turn(14, 0x9128F695, 0x4607B664, 0x18C623F9, 0x7EF6A7A2, 0x60D47E4A, 0x00000000);
    Turn(15, 0x196BEE77, 0x9128F695, 0x1181ED99, 0x18C623F9, 0x7EF6A7A2, 0x00000018);
    Turn(16, 0x20BDD62F, 0x196BEE77, 0x644A3DA5, 0x1181ED99, 0x18C623F9, 0xC2C4C700);
    Turn(17, 0x4E925823, 0x20BDD62F, 0xC65AFB9D, 0x644A3DA5, 0x1181ED99, 0x00000000);
    Turn(18, 0x82AA6728, 0x4E925823, 0xC82F758B, 0xC65AFB9D, 0x644A3DA5, 0x00000030);
    Turn(19, 0xDC64901D, 0x82AA6728, 0xD3A49608, 0xC82F758B, 0xC65AFB9D, 0x85898E01);
  }

  lemma Rounds40()
    ensures Rounds(INITIAL, M1, 40) == Chaining(0x32DE1CBA, 0x4C986405, 0xF718E5CF, 0x03D447F6, 0xF72EEC32)
  {
    hide Rounds, W;
    Rounds20();
    Words32();
    Words48();
    Turn(20, 0xFD9E1D7D, 0xDC64901D, 0x20AA99CA, 0xD3A49608, 0xC82F758B, 0x00000000);
    Turn(21, 0x1A37B0CA, 0xFD9E1D7D, 0x77192407, 0x20AA99CA, 0xD3A49608, 0x00000060);
    Turn(22, 0x33A23BFC, 0x1A37B0CA, 0x7F67875F, 0x77192407, 0x20AA99CA, 0x0B131C03);
    Turn(23, 0x21283486, 0x33A23BFC, 0x868DEC32, 0x7F67875F, 0x77192407, 0x00000030);
    Turn(24, 0xD541F12D, 0x21283486, 0x0CE88EFF, 0x868DEC32, 0x7F67875F, 0x85898EC1);
    Turn(25, 0xC7567DC6, 0xD541F12D, 0x884A0D21, 0x0CE88EFF, 0x868DEC32, 0x16263806);
    Turn(26, 0x48413BA4, 0xC7567DC6, 0x75507C4B, 0x884A0D21, 0x0CE88EFF, 0x00000000);
    Turn(27, 0xBE35FBD5, 0x48413BA4, 0xB1D59F71, 0x75507C4B, 0x884A0D21, 0x00000180);
    Turn(28, 0x4AA84D97, 0xBE35FBD5, 0x12104EE9, 0xB1D59F71, 0x75507C4B, 0x2C4C700C);
    Turn(29, 0x8370B52E, 0x4AA84D97, 0x6F8D7EF5, 0x12104EE9, 0xB1D59F71, 0x000000F0);
    Turn(30, 0xC5FBAF5D, 0x8370B52E, 0xD2AA1365, 0x6F8D7EF5, 0x12104EE9, 0x93AFB507);
    Turn(31, 0x1267B407, 0xC5FBAF5D, 0xA0DC2D4B, 0xD2AA1365, 0x6F8D7EF5, 0x5898E048);
    Turn(32, 0x3B845D33, 0x1267B407, 0x717EEBD7, 0xA0DC2D4B, 0xD2AA1365, 0x8E9A9202);
    Turn(33, 0x046FAA0A, 0x3B845D33, 0xC499ED01, 0x717EEBD7, 0xA0DC2D4B, 0x00000600);
    Turn(34, 0x2C0EBC11, 0x046FAA0A, 0xCEE1174C, 0xC499ED01, 0x717EEBD7, 0xB131C0F0);
    Turn(35, 0x21796AD4, 0x2C0EBC11, 0x811BEA82, 0xCEE1174C, 0xC499ED01, 0x16263BC6);
    Turn(36, 0xDCBBB0CB, 0x21796AD4, 0x4B03AF04, 0x811BEA82, 0xCEE1174C, 0x4EBED41E);
    Turn(37, 0x0F511FD8, 0xDCBBB0CB, 0x085E5AB5, 0x4B03AF04, 0x811BEA82, 0x626380A1);
    Turn(38, 0xDC63973F, 0x0F511FD8, 0xF72EEC32, 0x085E5AB5, 0x4B03AF04, 0x16263806);
    Turn(39, 0x4C986405, 0xDC63973F, 0x03D447F6, 0xF72EEC32, 0x085E5AB5, 0x000018C0);
  }

  lemma Rounds60()
    ensures Rounds(INITIAL, M1, 60) == Chaining(0x3F52DE5A, 0x09D785FD, 0x3498BFD4, 0xF211824F, 0xD79915AB)
  {
    hide Rounds, W;
    Rounds40();
    Words48();
    Words64();
    Turn(40, 0x32DE1CBA, 0x4C986405, 0xF718E5CF, 0x03D447F6, 0xF72EEC32, 0xD2E138C4);
    Turn(41, 0xFC87DEDF, 0x32DE1CBA, 0x53261901, 0xF718E5CF, 0x03D447F6, 0x00000F00);
    Turn(42, 0x970A0D5C, 0xFC87DEDF, 0x8CB7872E, 0x53261901, 0xF718E5CF, 0x3AFB5079);
    Turn(43, 0x7F193DC5, 0x970A0D5C, 0xFF21F7B7, 0x8CB7872E, 0x53261901, 0x898E04E5);
    Turn(44, 0xEE1B1AAF, 0x7F193DC5, 0x25C28357, 0xFF21F7B7, 0x8CB7872E, 0xE2BA3C2B);
    Turn(45, 0x40F28E09, 0xEE1B1AAF, 0x5FC64F71, 0x25C28357, 0xFF21F7B7, 0x000060C0);
    Turn(46, 0x1C51E1F2, 0x40F28E09, 0xFB86C6AB, 0x5FC64F71, 0x25C28357, 0x053A37CD);
    Turn(47, 0xA01B846C, 0x1C51E1F2, 0x503CA382, 0xFB86C6AB, 0x5FC64F71, 0x74458547);
    Turn(48, 0xBEAD02CA, 0xA01B846C, 0x8714787C, 0x503CA382, 0xFB86C6AB, 0xDA9415ED);
    Turn(49, 0xBAF39337, 0xBEAD02CA, 0x2806E11B, 0x8714787C, 0x503CA382, 0x26380A16);
    Turn(50, 0x120731C5, 0xBAF39337, 0xAFAB40B2, 0x2806E11B, 0x8714787C, 0x626383A1);
    Turn(51, 0x641DB2CE, 0x120731C5, 0xEEBCE4CD, 0xAFAB40B2, 0x2806E11B, 0x4EBF54DE);
    Turn(52, 0x3847AD66, 0x641DB2CE, 0x4481CC71, 0xEEBCE4CD, 0xAFAB40B2, 0x3835B44B);
    Turn(53, 0xE490436D, 0x3847AD66, 0x99076CB3, 0x4481CC71, 0xEEBCE4CD, 0x0000F600);
    Turn(54, 0x27E9F1D8, 0xE490436D, 0x8E11EB59, 0x99076CB3, 0x4481CC71, 0x1E84C7A3);
    Turn(55, 0x7B71F76D, 0x27E9F1D8, 0x792410DB, 0x8E11EB59, 0x99076CB3, 0x98E04D98);
    Turn(56, 0x5E6456AF, 0x7B71F76D, 0x09FA7C76, 0x792410DB, 0x8E11EB59, 0x651D16A0);
    Turn(57, 0xC846093F, 0x5E6456AF, 0x5EDC7DDB, 0x09FA7C76, 0x792410DB, 0x62658CA1);
    Turn(58, 0xD262FF50, 0xC846093F, 0xD79915AB, 0x5EDC7DDB, 0x09FA7C76, 0x458544D6);
    Turn(59, 0x09D785FD, 0xD262FF50, 0xF211824F, 0xD79915AB, 0x5EDC7DDB, 0x44584CB7);
  }

  lemma Rounds80()
    ensures Rounds(INITIAL, M1, 80) == Chaining(0x42541B35, 0x5738D5E1, 0x21834873, 0x681E6DF6, 0xD8FDF6AD)
  {
    hide Rounds, W;
    Rounds60();
    Words64();
    Words80();
    Turn(60, 0x3F52DE5A, 0x09D785FD, 0x3498BFD4, 0xF211824F, 0xD79915AB, 0x7BA06619);
    Turn(61, 0xD756C147, 0x3F52DE5A, 0x4275E17F, 0x3498BFD4, 0xF211824F, 0x6380AEA2);
    Turn(62, 0x548C9CB2, 0xD756C147, 0x8FD4B796, 0x4275E17F, 0x3498BFD4, 0x0AE55269);
    Turn(63, 0xB66C020B, 0x548C9CB2, 0xF5D5B051, 0x8FD4B796, 0x4275E17F, 0x627B49A1);
    Turn(64, 0x6B61C9E1, 0xB66C020B, 0x9523272C, 0xF5D5B051, 0x8FD4B796, 0x7CD45C9D);
    Turn(65, 0x19DFA7AC, 0x6B61C9E1, 0xED9B0082, 0x9523272C, 0xF5D5B051, 0x000F0000);
    Turn(66, 0x101655F9, 0x19DFA7AC, 0x5AD87278, 0xED9B0082, 0x9523272C, 0xFB50753A);
    Turn(67, 0x0C3DF2B4, 0x101655F9, 0x0677E9EB, 0x5AD87278, 0xED9B0082, 0xEC6765E8);
    Turn(68, 0x78DD4D2B, 0x0C3DF2B4, 0x4405957E, 0x0677E9EB, 0x5AD87278, 0xBA3C2BE2);
    Turn(69, 0x497093C0, 0x78DD4D2B, 0x030F7CAD, 0x4405957E, 0x0677E9EB, 0x0060C000);
    Turn(70, 0x3F2588C2, 0x497093C0, 0xDE37534A, 0x030F7CAD, 0x4405957E, 0x3A37CD05);
    Turn(71, 0xC199F8C7, 0x3F2588C2, 0x125C24F0, 0xDE37534A, 0x030F7CAD, 0x458546F4);
    Turn(72, 0x39859DE7, 0xC199F8C7, 0x8FC96230, 0x125C24F0, 0xDE37534A, 0xB8599DD6);
    Turn(73, 0xEDB42DE4, 0x39859DE7, 0xF0667E31, 0x8FC96230, 0x125C24F0, 0x380A1A26);
    Turn(74, 0x11793F6F, 0xEDB42DE4, 0xCE616779, 0xF0667E31, 0x8FC96230, 0x01E02203);
    Turn(75, 0x5EE76897, 0x11793F6F, 0x3B6D0B79, 0xCE616779, 0xF0667E31, 0xE7CC3456);
    Turn(76, 0x63F7DAB7, 0x5EE76897, 0xC45E4FDB, 0x3B6D0B79, 0xCE616779, 0xE6E60B69);
    Turn(77, 0xA079B7D9, 0x63F7DAB7, 0xD7B9DA25, 0xC45E4FDB, 0x3B6D0B79, 0x00F60A00);
    Turn(78, 0x860D21CC, 0xA079B7D9, 0xD8FDF6AD, 0xD7B9DA25, 0xC45E4FDB, 0x5795EF4F);
    Turn(79, 0x5738D5E1, 0x860D21CC, 0x681E6DF6, 0xD8FDF6AD, 0xD7B9DA25, 0x822E0879);
  }

  // ---- The digest ----

  lemma Initially()
    ensures Rounds(INITIAL, M1, 0) == Chaining(0x67452301, 0xEFCDAB89, 0x98BADCFE, 0x10325476, 0xC3D2E1F0)
  {
  }

  /** The digest is the published one. */
  lemma AbcDigest()
    ensures Digest(ABC) ==
            [0xA9, 0x99, 0x3E, 0x36, 0x47, 0x06, 0x81, 0x6A, 0xBA, 0x3E,
             0x25, 0x71, 0x78, 0x50, 0xC2, 0x6C, 0x9C, 0xD0, 0xD8, 0x9D]
  {
    hide Absorb, Compress, Padded, DigestBytes;
    AbcPadded();
    assert M1[..64] == M1 && M1[64..] == [];
    AbsorbBlock(INITIAL, [], M1);
    assert [] + M1 == M1;
    Nothing();
    AbcCompressed();
    AbcBytes();
  }

  lemma Nothing()
    ensures Absorb(INITIAL, []) == INITIAL
  {
  }

  lemma AbcCompressed()
    ensures Compress(INITIAL, M1) == Chaining(0xA9993E36, 0x4706816A, 0xBA3E2571, 0x7850C26C, 0x9CD0D89D)
  {
    hide Rounds;
    Rounds80();
  }

  lemma AbcBytes()
    ensures DigestBytes(Chaining(0xA9993E36, 0x4706816A, 0xBA3E2571, 0x7850C26C, 0x9CD0D89D)) ==
            [0xA9, 0x99, 0x3E, 0x36, 0x47, 0x06, 0x81, 0x6A, 0xBA, 0x3E,
             0x25, 0x71, 0x78, 0x50, 0xC2, 0x6C, 0x9C, 0xD0, 0xD8, 0x9D]
  {
  }

  lemma AbcPadded()
    ensures Padded(ABC) == M1
  {
    hide LengthField, Zeros;
    AbcLength();
  }

  lemma AbcLength()
    ensures LengthField(24) == [0x00, 0x00, 0x00, 0x00, 0x00, 0x00, 0x00, 0x18]
  {
    assert BigEndian(24, 8) == [0, 0, 0, 0, 0, 0, 0, 24];
  }
}
