/** The one-block example published with FIPS 180-4: the digest of "abc", with every schedule word and all working
    variables. It ties the constants, the functions and the order of the registers to the standard's own numbers. */
module Sha1Example {
  import opened MachineInts
  import opened Fips180

  /** The schedule words, and the working variables before each iteration. */
  datatype Trace = Trace(w: seq<Word>, r: seq<Regs>)

  predicate Sized(x: Trace) { |x.w| == 80 && |x.r| == 81 }

  predicate WordFollows(x: Trace, t: nat)
    requires Sized(x) && 16 <= t < 80
  {
    x.w[t] == Rotl(Xor(x.w[t - 3], x.w[t - 8], x.w[t - 14], x.w[t - 16]), 1)
  }

  predicate RegsFollow(x: Trace, t: nat)
    requires Sized(x) && t < 80
  {
    x.r[t + 1] == Step(t, x.r[t], x.w[t])
  }

  /** The recurrences of section 6.1.2. */
  ghost predicate Good(x: Trace) {
    && Sized(x) && (forall t :: 16 <= t < 80 ==> WordFollows(x, t)) && (forall t :: 0 <= t < 80 ==> RegsFollow(x, t))
  }

  predicate Words(x: Trace, t: nat, a: bv32, b: bv32, c: bv32, d: bv32, e: bv32, f: bv32, g: bv32, h: bv32,
                  i: bv32, j: bv32, k: bv32, l: bv32, m: bv32, n: bv32, o: bv32, p: bv32)
    requires Sized(x) && t + 16 <= 80
  {
    var w := x.w;
    && w[t].bits == a && w[t + 1].bits == b && w[t + 2].bits == c && w[t + 3].bits == d
    && w[t + 4].bits == e && w[t + 5].bits == f && w[t + 6].bits == g && w[t + 7].bits == h
    && w[t + 8].bits == i && w[t + 9].bits == j && w[t + 10].bits == k && w[t + 11].bits == l
    && w[t + 12].bits == m && w[t + 13].bits == n && w[t + 14].bits == o && w[t + 15].bits == p
  }

  predicate Vars(x: Trace, t: nat, a: bv32, b: bv32, c: bv32, d: bv32, e: bv32)
    requires Sized(x) && t <= 80
  {
    x.r[t] == Regs(W(a), W(b), W(c), W(d), W(e))
  }

  lemma WordIs(x: Trace, t: nat, w3: bv32, w8: bv32, w14: bv32, w16: bv32, w: bv32)
    requires Good(x) && 16 <= t < 80
    requires x.w[t - 3].bits == w3 && x.w[t - 8].bits == w8 && x.w[t - 14].bits == w14 && x.w[t - 16].bits == w16
    requires Rotl(Xor(W(w3), W(w8), W(w14), W(w16)), 1) == W(w)
    ensures x.w[t].bits == w
  {
    hide Rotl, Xor;
    assert WordFollows(x, t);
  }

  lemma Round(x: Trace, t: nat, a: bv32, b: bv32, c: bv32, d: bv32, e: bv32, w: bv32, y: bv32)
    requires Good(x) && t < 80 && Vars(x, t, a, b, c, d, e) && x.w[t].bits == w
    requires Sum(Sum(Sum(Sum(Rotl(W(a), 5).bits, F(t, W(b), W(c), W(d)).bits), e), K(t).bits), w) == y
    ensures Vars(x, t + 1, y, a, Rotl(W(b), 30).bits, c, d)
  {
    hide Rotl, F, Sum, K;
    assert RegsFollow(x, t);
  }

  lemma Iterations0To15(x: Trace)
    requires Good(x) && Vars(x, 0, 0x67452301, 0xEFCDAB89, 0x98BADCFE, 0x10325476, 0xC3D2E1F0)
    requires Words(x, 0, 0x61626380, 0x00000000, 0x00000000, 0x00000000, 0x00000000, 0x00000000, 0x00000000,
      0x00000000, 0x00000000, 0x00000000, 0x00000000, 0x00000000, 0x00000000, 0x00000000, 0x00000000, 0x00000018)
    ensures Vars(x, 16, 0x20BDD62F, 0x196BEE77, 0x644A3DA5, 0x1181ED99, 0x18C623F9)
    ensures Words(x, 16, 0xC2C4C700, 0x00000000, 0x00000030, 0x85898E01, 0x00000000, 0x00000060, 0x0B131C03,
      0x00000030, 0x85898EC1, 0x16263806, 0x00000000, 0x00000180, 0x2C4C700C, 0x000000F0, 0x93AFB507, 0x5898E048)
  {
    hide Good;
    Round(x, 0, 0x67452301, 0xEFCDAB89, 0x98BADCFE, 0x10325476, 0xC3D2E1F0, 0x61626380, 0x0116FC33);
    Round(x, 1, 0x0116FC33, 0x67452301, 0x7BF36AE2, 0x98BADCFE, 0x10325476, 0x00000000, 0x8990536D);
    Round(x, 2, 0x8990536D, 0x0116FC33, 0x59D148C0, 0x7BF36AE2, 0x98BADCFE, 0x00000000, 0xA1390F08);
    Round(x, 3, 0xA1390F08, 0x8990536D, 0xC045BF0C, 0x59D148C0, 0x7BF36AE2, 0x00000000, 0xCDD8E11B);
    Round(x, 4, 0xCDD8E11B, 0xA1390F08, 0x626414DB, 0xC045BF0C, 0x59D148C0, 0x00000000, 0xCFD499DE);
    Round(x, 5, 0xCFD499DE, 0xCDD8E11B, 0x284E43C2, 0x626414DB, 0xC045BF0C, 0x00000000, 0x3FC7CA40);
    Round(x, 6, 0x3FC7CA40, 0xCFD499DE, 0xF3763846, 0x284E43C2, 0x626414DB, 0x00000000, 0x993E30C1);
    Round(x, 7, 0x993E30C1, 0x3FC7CA40, 0xB3F52677, 0xF3763846, 0x284E43C2, 0x00000000, 0x9E8C07D4);
    Round(x, 8, 0x9E8C07D4, 0x993E30C1, 0x0FF1F290, 0xB3F52677, 0xF3763846, 0x00000000, 0x4B6AE328);
    Round(x, 9, 0x4B6AE328, 0x9E8C07D4, 0x664F8C30, 0x0FF1F290, 0xB3F52677, 0x00000000, 0x8351F929);
    Round(x, 10, 0x8351F929, 0x4B6AE328, 0x27A301F5, 0x664F8C30, 0x0FF1F290, 0x00000000, 0xFBDA9E89);
    Round(x, 11, 0xFBDA9E89, 0x8351F929, 0x12DAB8CA, 0x27A301F5, 0x664F8C30, 0x00000000, 0x63188FE4);
    Round(x, 12, 0x63188FE4, 0xFBDA9E89, 0x60D47E4A, 0x12DAB8CA, 0x27A301F5, 0x00000000, 0x4607B664);
    Round(x, 13, 0x4607B664, 0x63188FE4, 0x7EF6A7A2, 0x60D47E4A, 0x12DAB8CA, 0x00000000, 0x9128F695);
    Round(x, 14, 0x9128F695, 0x4607B664, 0x18C623F9, 0x7EF6A7A2, 0x60D47E4A, 0x00000000, 0x196BEE77);
    Round(x, 15, 0x196BEE77, 0x9128F695, 0x1181ED99, 0x18C623F9, 0x7EF6A7A2, 0x00000018, 0x20BDD62F);
    WordIs(x, 16, 0x00000000, 0x00000000, 0x00000000, 0x61626380, 0xC2C4C700);
    WordIs(x, 17, 0x00000000, 0x00000000, 0x00000000, 0x00000000, 0x00000000);
    WordIs(x, 18, 0x00000018, 0x00000000, 0x00000000, 0x00000000, 0x00000030);
    WordIs(x, 19, 0xC2C4C700, 0x00000000, 0x00000000, 0x00000000, 0x85898E01);
    WordIs(x, 20, 0x00000000, 0x00000000, 0x00000000, 0x00000000, 0x00000000);
    WordIs(x, 21, 0x00000030, 0x00000000, 0x00000000, 0x00000000, 0x00000060);
    WordIs(x, 22, 0x85898E01, 0x00000000, 0x00000000, 0x00000000, 0x0B131C03);
    WordIs(x, 23, 0x00000000, 0x00000018, 0x00000000, 0x00000000, 0x00000030);
    WordIs(x, 24, 0x00000060, 0xC2C4C700, 0x00000000, 0x00000000, 0x85898EC1);
    WordIs(x, 25, 0x0B131C03, 0x00000000, 0x00000000, 0x00000000, 0x16263806);
    WordIs(x, 26, 0x00000030, 0x00000030, 0x00000000, 0x00000000, 0x00000000);
    WordIs(x, 27, 0x85898EC1, 0x85898E01, 0x00000000, 0x00000000, 0x00000180);
    WordIs(x, 28, 0x16263806, 0x00000000, 0x00000000, 0x00000000, 0x2C4C700C);
    WordIs(x, 29, 0x00000000, 0x00000060, 0x00000018, 0x00000000, 0x000000F0);
    WordIs(x, 30, 0x00000180, 0x0B131C03, 0xC2C4C700, 0x00000000, 0x93AFB507);
    WordIs(x, 31, 0x2C4C700C, 0x00000030, 0x00000000, 0x00000018, 0x5898E048);
  }

  lemma Iterations16To31(x: Trace)
    requires Good(x) && Vars(x, 16, 0x20BDD62F, 0x196BEE77, 0x644A3DA5, 0x1181ED99, 0x18C623F9)
    requires Words(x, 16, 0xC2C4C700, 0x00000000, 0x00000030, 0x85898E01, 0x00000000, 0x00000060, 0x0B131C03,
      0x00000030, 0x85898EC1, 0x16263806, 0x00000000, 0x00000180, 0x2C4C700C, 0x000000F0, 0x93AFB507, 0x5898E048)
    ensures Vars(x, 32, 0x3B845D33, 0x1267B407, 0x717EEBD7, 0xA0DC2D4B, 0xD2AA1365)
    ensures Words(x, 32, 0x8E9A9202, 0x00000600, 0xB131C0F0, 0x16263BC6, 0x4EBED41E, 0x626380A1, 0x16263806,
      0x000018C0, 0xD2E138C4, 0x00000F00, 0x3AFB5079, 0x898E04E5, 0xE2BA3C2B, 0x000060C0, 0x053A37CD, 0x74458547)
  {
    hide Good;
    Round(x, 16, 0x20BDD62F, 0x196BEE77, 0x644A3DA5, 0x1181ED99, 0x18C623F9, 0xC2C4C700, 0x4E925823);
    Round(x, 17, 0x4E925823, 0x20BDD62F, 0xC65AFB9D, 0x644A3DA5, 0x1181ED99, 0x00000000, 0x82AA6728);
    Round(x, 18, 0x82AA6728, 0x4E925823, 0xC82F758B, 0xC65AFB9D, 0x644A3DA5, 0x00000030, 0xDC64901D);
    Round(x, 19, 0xDC64901D, 0x82AA6728, 0xD3A49608, 0xC82F758B, 0xC65AFB9D, 0x85898E01, 0xFD9E1D7D);
    Round(x, 20, 0xFD9E1D7D, 0xDC64901D, 0x20AA99CA, 0xD3A49608, 0xC82F758B, 0x00000000, 0x1A37B0CA);
    Round(x, 21, 0x1A37B0CA, 0xFD9E1D7D, 0x77192407, 0x20AA99CA, 0xD3A49608, 0x00000060, 0x33A23BFC);
    Round(x, 22, 0x33A23BFC, 0x1A37B0CA, 0x7F67875F, 0x77192407, 0x20AA99CA, 0x0B131C03, 0x21283486);
    Round(x, 23, 0x21283486, 0x33A23BFC, 0x868DEC32, 0x7F67875F, 0x77192407, 0x00000030, 0xD541F12D);
    Round(x, 24, 0xD541F12D, 0x21283486, 0x0CE88EFF, 0x868DEC32, 0x7F67875F, 0x85898EC1, 0xC7567DC6);
    Round(x, 25, 0xC7567DC6, 0xD541F12D, 0x884A0D21, 0x0CE88EFF, 0x868DEC32, 0x16263806, 0x48413BA4);
    Round(x, 26, 0x48413BA4, 0xC7567DC6, 0x75507C4B, 0x884A0D21, 0x0CE88EFF, 0x00000000, 0xBE35FBD5);
    Round(x, 27, 0xBE35FBD5, 0x48413BA4, 0xB1D59F71, 0x75507C4B, 0x884A0D21, 0x00000180, 0x4AA84D97);
    Round(x, 28, 0x4AA84D97, 0xBE35FBD5, 0x12104EE9, 0xB1D59F71, 0x75507C4B, 0x2C4C700C, 0x8370B52E);
    Round(x, 29, 0x8370B52E, 0x4AA84D97, 0x6F8D7EF5, 0x12104EE9, 0xB1D59F71, 0x000000F0, 0xC5FBAF5D);
    Round(x, 30, 0xC5FBAF5D, 0x8370B52E, 0xD2AA1365, 0x6F8D7EF5, 0x12104EE9, 0x93AFB507, 0x1267B407);
    Round(x, 31, 0x1267B407, 0xC5FBAF5D, 0xA0DC2D4B, 0xD2AA1365, 0x6F8D7EF5, 0x5898E048, 0x3B845D33);
    WordIs(x, 32, 0x000000F0, 0x85898EC1, 0x00000030, 0xC2C4C700, 0x8E9A9202);
    WordIs(x, 33, 0x93AFB507, 0x16263806, 0x85898E01, 0x00000000, 0x00000600);
    WordIs(x, 34, 0x5898E048, 0x00000000, 0x00000000, 0x00000030, 0xB131C0F0);
    WordIs(x, 35, 0x8E9A9202, 0x00000180, 0x00000060, 0x85898E01, 0x16263BC6);
    WordIs(x, 36, 0x00000600, 0x2C4C700C, 0x0B131C03, 0x00000000, 0x4EBED41E);
    WordIs(x, 37, 0xB131C0F0, 0x000000F0, 0x00000030, 0x00000060, 0x626380A1);
    WordIs(x, 38, 0x16263BC6, 0x93AFB507, 0x85898EC1, 0x0B131C03, 0x16263806);
    WordIs(x, 39, 0x4EBED41E, 0x5898E048, 0x16263806, 0x00000030, 0x000018C0);
    WordIs(x, 40, 0x626380A1, 0x8E9A9202, 0x00000000, 0x85898EC1, 0xD2E138C4);
    WordIs(x, 41, 0x16263806, 0x00000600, 0x00000180, 0x16263806, 0x00000F00);
    WordIs(x, 42, 0x000018C0, 0xB131C0F0, 0x2C4C700C, 0x00000000, 0x3AFB5079);
    WordIs(x, 43, 0xD2E138C4, 0x16263BC6, 0x000000F0, 0x00000180, 0x898E04E5);
    WordIs(x, 44, 0x00000F00, 0x4EBED41E, 0x93AFB507, 0x2C4C700C, 0xE2BA3C2B);
    WordIs(x, 45, 0x3AFB5079, 0x626380A1, 0x5898E048, 0x000000F0, 0x000060C0);
    WordIs(x, 46, 0x898E04E5, 0x16263806, 0x8E9A9202, 0x93AFB507, 0x053A37CD);
    WordIs(x, 47, 0xE2BA3C2B, 0x000018C0, 0x00000600, 0x5898E048, 0x74458547);
  }

  lemma Iterations32To47(x: Trace)
    requires Good(x) && Vars(x, 32, 0x3B845D33, 0x1267B407, 0x717EEBD7, 0xA0DC2D4B, 0xD2AA1365)
    requires Words(x, 32, 0x8E9A9202, 0x00000600, 0xB131C0F0, 0x16263BC6, 0x4EBED41E, 0x626380A1, 0x16263806,
      0x000018C0, 0xD2E138C4, 0x00000F00, 0x3AFB5079, 0x898E04E5, 0xE2BA3C2B, 0x000060C0, 0x053A37CD, 0x74458547)
    ensures Vars(x, 48, 0xBEAD02CA, 0xA01B846C, 0x8714787C, 0x503CA382, 0xFB86C6AB)
    ensures Words(x, 48, 0xDA9415ED, 0x26380A16, 0x626383A1, 0x4EBF54DE, 0x3835B44B, 0x0000F600, 0x1E84C7A3,
      0x98E04D98, 0x651D16A0, 0x62658CA1, 0x458544D6, 0x44584CB7, 0x7BA06619, 0x6380AEA2, 0x0AE55269, 0x627B49A1)
  {
    hide Good;
    Round(x, 32, 0x3B845D33, 0x1267B407, 0x717EEBD7, 0xA0DC2D4B, 0xD2AA1365, 0x8E9A9202, 0x046FAA0A);
    Round(x, 33, 0x046FAA0A, 0x3B845D33, 0xC499ED01, 0x717EEBD7, 0xA0DC2D4B, 0x00000600, 0x2C0EBC11);
    Round(x, 34, 0x2C0EBC11, 0x046FAA0A, 0xCEE1174C, 0xC499ED01, 0x717EEBD7, 0xB131C0F0, 0x21796AD4);
    Round(x, 35, 0x21796AD4, 0x2C0EBC11, 0x811BEA82, 0xCEE1174C, 0xC499ED01, 0x16263BC6, 0xDCBBB0CB);
    Round(x, 36, 0xDCBBB0CB, 0x21796AD4, 0x4B03AF04, 0x811BEA82, 0xCEE1174C, 0x4EBED41E, 0x0F511FD8);
    Round(x, 37, 0x0F511FD8, 0xDCBBB0CB, 0x085E5AB5, 0x4B03AF04, 0x811BEA82, 0x626380A1, 0xDC63973F);
    Round(x, 38, 0xDC63973F, 0x0F511FD8, 0xF72EEC32, 0x085E5AB5, 0x4B03AF04, 0x16263806, 0x4C986405);
    Round(x, 39, 0x4C986405, 0xDC63973F, 0x03D447F6, 0xF72EEC32, 0x085E5AB5, 0x000018C0, 0x32DE1CBA);
    Round(x, 40, 0x32DE1CBA, 0x4C986405, 0xF718E5CF, 0x03D447F6, 0xF72EEC32, 0xD2E138C4, 0xFC87DEDF);
    Round(x, 41, 0xFC87DEDF, 0x32DE1CBA, 0x53261901, 0xF718E5CF, 0x03D447F6, 0x00000F00, 0x970A0D5C);
    Round(x, 42, 0x970A0D5C, 0xFC87DEDF, 0x8CB7872E, 0x53261901, 0xF718E5CF, 0x3AFB5079, 0x7F193DC5);
    Round(x, 43, 0x7F193DC5, 0x970A0D5C, 0xFF21F7B7, 0x8CB7872E, 0x53261901, 0x898E04E5, 0xEE1B1AAF);
    Round(x, 44, 0xEE1B1AAF, 0x7F193DC5, 0x25C28357, 0xFF21F7B7, 0x8CB7872E, 0xE2BA3C2B, 0x40F28E09);
    Round(x, 45, 0x40F28E09, 0xEE1B1AAF, 0x5FC64F71, 0x25C28357, 0xFF21F7B7, 0x000060C0, 0x1C51E1F2);
    Round(x, 46, 0x1C51E1F2, 0x40F28E09, 0xFB86C6AB, 0x5FC64F71, 0x25C28357, 0x053A37CD, 0xA01B846C);
    Round(x, 47, 0xA01B846C, 0x1C51E1F2, 0x503CA382, 0xFB86C6AB, 0x5FC64F71, 0x74458547, 0xBEAD02CA);
    WordIs(x, 48, 0x000060C0, 0xD2E138C4, 0xB131C0F0, 0x8E9A9202, 0xDA9415ED);
    WordIs(x, 49, 0x053A37CD, 0x00000F00, 0x16263BC6, 0x00000600, 0x26380A16);
    WordIs(x, 50, 0x74458547, 0x3AFB5079, 0x4EBED41E, 0xB131C0F0, 0x626383A1);
    WordIs(x, 51, 0xDA9415ED, 0x898E04E5, 0x626380A1, 0x16263BC6, 0x4EBF54DE);
    WordIs(x, 52, 0x26380A16, 0xE2BA3C2B, 0x16263806, 0x4EBED41E, 0x3835B44B);
    WordIs(x, 53, 0x626383A1, 0x000060C0, 0x000018C0, 0x626380A1, 0x0000F600);
    WordIs(x, 54, 0x4EBF54DE, 0x053A37CD, 0xD2E138C4, 0x16263806, 0x1E84C7A3);
    WordIs(x, 55, 0x3835B44B, 0x74458547, 0x00000F00, 0x000018C0, 0x98E04D98);
    WordIs(x, 56, 0x0000F600, 0xDA9415ED, 0x3AFB5079, 0xD2E138C4, 0x651D16A0);
    WordIs(x, 57, 0x1E84C7A3, 0x26380A16, 0x898E04E5, 0x00000F00, 0x62658CA1);
    WordIs(x, 58, 0x98E04D98, 0x626383A1, 0xE2BA3C2B, 0x3AFB5079, 0x458544D6);
    WordIs(x, 59, 0x651D16A0, 0x4EBF54DE, 0x000060C0, 0x898E04E5, 0x44584CB7);
    WordIs(x, 60, 0x62658CA1, 0x3835B44B, 0x053A37CD, 0xE2BA3C2B, 0x7BA06619);
    WordIs(x, 61, 0x458544D6, 0x0000F600, 0x74458547, 0x000060C0, 0x6380AEA2);
    WordIs(x, 62, 0x44584CB7, 0x1E84C7A3, 0xDA9415ED, 0x053A37CD, 0x0AE55269);
    WordIs(x, 63, 0x7BA06619, 0x98E04D98, 0x26380A16, 0x74458547, 0x627B49A1);
  }

  lemma Iterations48To63(x: Trace)
    requires Good(x) && Vars(x, 48, 0xBEAD02CA, 0xA01B846C, 0x8714787C, 0x503CA382, 0xFB86C6AB)
    requires Words(x, 48, 0xDA9415ED, 0x26380A16, 0x626383A1, 0x4EBF54DE, 0x3835B44B, 0x0000F600, 0x1E84C7A3,
      0x98E04D98, 0x651D16A0, 0x62658CA1, 0x458544D6, 0x44584CB7, 0x7BA06619, 0x6380AEA2, 0x0AE55269, 0x627B49A1)
    ensures Vars(x, 64, 0x6B61C9E1, 0xB66C020B, 0x9523272C, 0xF5D5B051, 0x8FD4B796)
    ensures Words(x, 64, 0x7CD45C9D, 0x000F0000, 0xFB50753A, 0xEC6765E8, 0xBA3C2BE2, 0x0060C000, 0x3A37CD05,
      0x458546F4, 0xB8599DD6, 0x380A1A26, 0x01E02203, 0xE7CC3456, 0xE6E60B69, 0x00F60A00, 0x5795EF4F, 0x822E0879)
  {
    hide Good;
    Round(x, 48, 0xBEAD02CA, 0xA01B846C, 0x8714787C, 0x503CA382, 0xFB86C6AB, 0xDA9415ED, 0xBAF39337);
    Round(x, 49, 0xBAF39337, 0xBEAD02CA, 0x2806E11B, 0x8714787C, 0x503CA382, 0x26380A16, 0x120731C5);
    Round(x, 50, 0x120731C5, 0xBAF39337, 0xAFAB40B2, 0x2806E11B, 0x8714787C, 0x626383A1, 0x641DB2CE);
    Round(x, 51, 0x641DB2CE, 0x120731C5, 0xEEBCE4CD, 0xAFAB40B2, 0x2806E11B, 0x4EBF54DE, 0x3847AD66);
    Round(x, 52, 0x3847AD66, 0x641DB2CE, 0x4481CC71, 0xEEBCE4CD, 0xAFAB40B2, 0x3835B44B, 0xE490436D);
    Round(x, 53, 0xE490436D, 0x3847AD66, 0x99076CB3, 0x4481CC71, 0xEEBCE4CD, 0x0000F600, 0x27E9F1D8);
    Round(x, 54, 0x27E9F1D8, 0xE490436D, 0x8E11EB59, 0x99076CB3, 0x4481CC71, 0x1E84C7A3, 0x7B71F76D);
    Round(x, 55, 0x7B71F76D, 0x27E9F1D8, 0x792410DB, 0x8E11EB59, 0x99076CB3, 0x98E04D98, 0x5E6456AF);
    Round(x, 56, 0x5E6456AF, 0x7B71F76D, 0x09FA7C76, 0x792410DB, 0x8E11EB59, 0x651D16A0, 0xC846093F);
    Round(x, 57, 0xC846093F, 0x5E6456AF, 0x5EDC7DDB, 0x09FA7C76, 0x792410DB, 0x62658CA1, 0xD262FF50);
    Round(x, 58, 0xD262FF50, 0xC846093F, 0xD79915AB, 0x5EDC7DDB, 0x09FA7C76, 0x458544D6, 0x09D785FD);
    Round(x, 59, 0x09D785FD, 0xD262FF50, 0xF211824F, 0xD79915AB, 0x5EDC7DDB, 0x44584CB7, 0x3F52DE5A);
    Round(x, 60, 0x3F52DE5A, 0x09D785FD, 0x3498BFD4, 0xF211824F, 0xD79915AB, 0x7BA06619, 0xD756C147);
    Round(x, 61, 0xD756C147, 0x3F52DE5A, 0x4275E17F, 0x3498BFD4, 0xF211824F, 0x6380AEA2, 0x548C9CB2);
    Round(x, 62, 0x548C9CB2, 0xD756C147, 0x8FD4B796, 0x4275E17F, 0x3498BFD4, 0x0AE55269, 0xB66C020B);
    Round(x, 63, 0xB66C020B, 0x548C9CB2, 0xF5D5B051, 0x8FD4B796, 0x4275E17F, 0x627B49A1, 0x6B61C9E1);
    WordIs(x, 64, 0x6380AEA2, 0x651D16A0, 0x626383A1, 0xDA9415ED, 0x7CD45C9D);
    WordIs(x, 65, 0x0AE55269, 0x62658CA1, 0x4EBF54DE, 0x26380A16, 0x000F0000);
    WordIs(x, 66, 0x627B49A1, 0x458544D6, 0x3835B44B, 0x626383A1, 0xFB50753A);
    WordIs(x, 67, 0x7CD45C9D, 0x44584CB7, 0x0000F600, 0x4EBF54DE, 0xEC6765E8);
    WordIs(x, 68, 0x000F0000, 0x7BA06619, 0x1E84C7A3, 0x3835B44B, 0xBA3C2BE2);
    WordIs(x, 69, 0xFB50753A, 0x6380AEA2, 0x98E04D98, 0x0000F600, 0x0060C000);
    WordIs(x, 70, 0xEC6765E8, 0x0AE55269, 0x651D16A0, 0x1E84C7A3, 0x3A37CD05);
    WordIs(x, 71, 0xBA3C2BE2, 0x627B49A1, 0x62658CA1, 0x98E04D98, 0x458546F4);
    WordIs(x, 72, 0x0060C000, 0x7CD45C9D, 0x458544D6, 0x651D16A0, 0xB8599DD6);
    WordIs(x, 73, 0x3A37CD05, 0x000F0000, 0x44584CB7, 0x62658CA1, 0x380A1A26);
    WordIs(x, 74, 0x458546F4, 0xFB50753A, 0x7BA06619, 0x458544D6, 0x01E02203);
    WordIs(x, 75, 0xB8599DD6, 0xEC6765E8, 0x6380AEA2, 0x44584CB7, 0xE7CC3456);
    WordIs(x, 76, 0x380A1A26, 0xBA3C2BE2, 0x0AE55269, 0x7BA06619, 0xE6E60B69);
    WordIs(x, 77, 0x01E02203, 0x0060C000, 0x627B49A1, 0x6380AEA2, 0x00F60A00);
    WordIs(x, 78, 0xE7CC3456, 0x3A37CD05, 0x7CD45C9D, 0x0AE55269, 0x5795EF4F);
    WordIs(x, 79, 0xE6E60B69, 0x458546F4, 0x000F0000, 0x627B49A1, 0x822E0879);
  }

  lemma Iterations64To79(x: Trace)
    requires Good(x) && Vars(x, 64, 0x6B61C9E1, 0xB66C020B, 0x9523272C, 0xF5D5B051, 0x8FD4B796)
    requires Words(x, 64, 0x7CD45C9D, 0x000F0000, 0xFB50753A, 0xEC6765E8, 0xBA3C2BE2, 0x0060C000, 0x3A37CD05,
      0x458546F4, 0xB8599DD6, 0x380A1A26, 0x01E02203, 0xE7CC3456, 0xE6E60B69, 0x00F60A00, 0x5795EF4F, 0x822E0879)
    ensures Vars(x, 80, 0x42541B35, 0x5738D5E1, 0x21834873, 0x681E6DF6, 0xD8FDF6AD)
  {
    hide Good;
    Round(x, 64, 0x6B61C9E1, 0xB66C020B, 0x9523272C, 0xF5D5B051, 0x8FD4B796, 0x7CD45C9D, 0x19DFA7AC);
    Round(x, 65, 0x19DFA7AC, 0x6B61C9E1, 0xED9B0082, 0x9523272C, 0xF5D5B051, 0x000F0000, 0x101655F9);
    Round(x, 66, 0x101655F9, 0x19DFA7AC, 0x5AD87278, 0xED9B0082, 0x9523272C, 0xFB50753A, 0x0C3DF2B4);
    Round(x, 67, 0x0C3DF2B4, 0x101655F9, 0x0677E9EB, 0x5AD87278, 0xED9B0082, 0xEC6765E8, 0x78DD4D2B);
    Round(x, 68, 0x78DD4D2B, 0x0C3DF2B4, 0x4405957E, 0x0677E9EB, 0x5AD87278, 0xBA3C2BE2, 0x497093C0);
    Round(x, 69, 0x497093C0, 0x78DD4D2B, 0x030F7CAD, 0x4405957E, 0x0677E9EB, 0x0060C000, 0x3F2588C2);
    Round(x, 70, 0x3F2588C2, 0x497093C0, 0xDE37534A, 0x030F7CAD, 0x4405957E, 0x3A37CD05, 0xC199F8C7);
    Round(x, 71, 0xC199F8C7, 0x3F2588C2, 0x125C24F0, 0xDE37534A, 0x030F7CAD, 0x458546F4, 0x39859DE7);
    Round(x, 72, 0x39859DE7, 0xC199F8C7, 0x8FC96230, 0x125C24F0, 0xDE37534A, 0xB8599DD6, 0xEDB42DE4);
    Round(x, 73, 0xEDB42DE4, 0x39859DE7, 0xF0667E31, 0x8FC96230, 0x125C24F0, 0x380A1A26, 0x11793F6F);
    Round(x, 74, 0x11793F6F, 0xEDB42DE4, 0xCE616779, 0xF0667E31, 0x8FC96230, 0x01E02203, 0x5EE76897);
    Round(x, 75, 0x5EE76897, 0x11793F6F, 0x3B6D0B79, 0xCE616779, 0xF0667E31, 0xE7CC3456, 0x63F7DAB7);
    Round(x, 76, 0x63F7DAB7, 0x5EE76897, 0xC45E4FDB, 0x3B6D0B79, 0xCE616779, 0xE6E60B69, 0xA079B7D9);
    Round(x, 77, 0xA079B7D9, 0x63F7DAB7, 0xD7B9DA25, 0xC45E4FDB, 0x3B6D0B79, 0x00F60A00, 0x860D21CC);
    Round(x, 78, 0x860D21CC, 0xA079B7D9, 0xD8FDF6AD, 0xD7B9DA25, 0xC45E4FDB, 0x5795EF4F, 0x5738D5E1);
    Round(x, 79, 0x5738D5E1, 0x860D21CC, 0x681E6DF6, 0xD8FDF6AD, 0xD7B9DA25, 0x822E0879, 0x42541B35);
  }

  // ---- the message "abc"

  const ABC: seq<byte> := [0x61, 0x62, 0x63]

  lemma Field()
    ensures BigEndian(24, 8) == [0, 0, 0, 0, 0, 0, 0, 24]
  {
  }

  lemma PaddedAbc(m: seq<byte>)
    requires m == ABC
    ensures var p := PadWith(m, 24);
      |p| == 64 && p[..4] == [0x61, 0x62, 0x63, 0x80] && (forall i :: 4 <= i < 63 ==> p[i] == 0) && p[63] == 24
  {
    hide BigEndian;
    Field();
  }

  function TraceOf(block: seq<byte>): Trace
    requires |block| == 64
  {
    Trace(seq(80, t requires 0 <= t => Schedule(block, t)), seq(81, t requires 0 <= t => Rounds(block, INITIAL, t)))
  }

  lemma TraceIsGood(block: seq<byte>)
    requires |block| == 64
    ensures Good(TraceOf(block))
  {
    hide Rotl, Xor, Step, WordAt;
    var x := TraceOf(block);
    forall t | 16 <= t < 80 ensures WordFollows(x, t) { NextWord(block, t); }
    forall t | 0 <= t < 80 ensures RegsFollow(x, t) { NextRegs(block, t); }
    hide Schedule, Rounds;
  }

  lemma NextWord(block: seq<byte>, t: nat)
    requires |block| == 64 && 16 <= t < 80
    ensures WordFollows(TraceOf(block), t)
  {
    hide Rotl, Xor, WordAt, Rounds;
  }

  lemma NextRegs(block: seq<byte>, t: nat)
    requires |block| == 64 && t < 80
    ensures RegsFollow(TraceOf(block), t)
  {
    hide Step, Schedule;
  }

  lemma ZeroWord(block: seq<byte>, i: nat)
    requires 4 * i + 3 < |block| && block[4 * i] == 0 && block[4 * i + 1] == 0 && block[4 * i + 2] == 0
    ensures block[4 * i + 3] == 0 ==> WordAt(block, i).bits == 0
    ensures block[4 * i + 3] == 24 ==> WordAt(block, i).bits == 24
  {
  }

  lemma FirstWord(block: seq<byte>)
    requires |block| >= 4 && block[..4] == [0x61, 0x62, 0x63, 0x80]
    ensures WordAt(block, 0).bits == 0x61626380
  {
    assert block[0] == block[..4][0] && block[1] == block[..4][1] && block[2] == block[..4][2];
    assert block[3] == block[..4][3];
  }

  lemma FirstWords(m: seq<byte>)
    requires m == ABC && |PadWith(m, 24)| == 64
    ensures Words(TraceOf(PadWith(m, 24)), 0, 0x61626380, 0, 0, 0, 0, 0, 0, 0, 0, 0, 0, 0, 0, 0, 0, 0x18)
  {
    PaddedAbc(m);
    var p := PadWith(m, 24);
    hide PadWith, WordAt, Rounds, INITIAL;
    forall i | 1 <= i < 16 ensures WordAt(p, i).bits == if i == 15 then 24 else 0 { ZeroWord(p, i); }
    FirstWord(p);
    var x := TraceOf(p);
    forall i | 0 <= i < 16 ensures x.w[i] == WordAt(p, i) {}
  }

  lemma FirstVars(block: seq<byte>)
    requires |block| == 64
    ensures Vars(TraceOf(block), 0, 0x67452301, 0xEFCDAB89, 0x98BADCFE, 0x10325476, 0xC3D2E1F0)
  {
    hide Step, Schedule;
  }

  /** The working variables after the last iteration. */
  lemma LastVars(m: seq<byte>)
    requires m == ABC && |PadWith(m, 24)| == 64
    ensures Rounds(PadWith(m, 24), INITIAL, 80) ==
      Regs(W(0x42541B35), W(0x5738D5E1), W(0x21834873), W(0x681E6DF6), W(0xD8FDF6AD))
  {
    FirstWords(m);
    var block := PadWith(m, 24);
    var x := TraceOf(block);
    TraceIsGood(block);
    FirstVars(block);
    assert x.r[80] == Rounds(block, INITIAL, 80) by { hide Schedule, Rounds; }
    hide *;
    Iterations0To15(x);
    Iterations16To31(x);
    Iterations32To47(x);
    Iterations48To63(x);
    Iterations64To79(x);
  }

  lemma OneBlock(h: Regs, block: seq<byte>)
    requires |block| == 64
    ensures Fold(h, block) == Compress(h, block)
  {
    hide Compress;
    assert block[..64] == block && block[64..] == [];
    var g := Compress(h, block);
    assert Fold(g, []) == g;
  }

  /** The intermediate hash value after the block. */
  lemma LastRegs(m: seq<byte>)
    requires m == ABC && |PadWith(m, 24)| == 64
    ensures Fold(INITIAL, PadWith(m, 24))
      == Regs(W(0xA9993E36), W(0x4706816A), W(0xBA3E2571), W(0x7850C26C), W(0x9CD0D89D))
  {
    LastVars(m);
    OneBlock(INITIAL, PadWith(m, 24));
    hide Rounds, PadWith, Fold;
  }

  lemma AbcBytes()
    ensures Bytes(W(0xA9993E36)) == [0xA9, 0x99, 0x3E, 0x36]
    ensures Bytes(W(0x4706816A)) == [0x47, 0x06, 0x81, 0x6A]
    ensures Bytes(W(0xBA3E2571)) == [0xBA, 0x3E, 0x25, 0x71]
    ensures Bytes(W(0x7850C26C)) == [0x78, 0x50, 0xC2, 0x6C]
    ensures Bytes(W(0x9CD0D89D)) == [0x9C, 0xD0, 0xD8, 0x9D]
  {
  }

  /** The digest of "abc". */
  lemma AbcDigest(m: seq<byte>)
    requires m == ABC
    ensures Hash(m) == [0xA9, 0x99, 0x3E, 0x36] + [0x47, 0x06, 0x81, 0x6A] + [0xBA, 0x3E, 0x25, 0x71]
      + [0x78, 0x50, 0xC2, 0x6C] + [0x9C, 0xD0, 0xD8, 0x9D]
  {
    PaddedAbc(m);
    LastRegs(m);
    AbcBytes();
    var h := Fold(INITIAL, PadWith(m, 24));
    assert Hash(m) == Digest(h);
    hide *;
    DigestIs(h);
  }

  lemma DigestIs(r: Regs)
    ensures Digest(r) == Bytes(r.a) + Bytes(r.b) + Bytes(r.c) + Bytes(r.d) + Bytes(r.e)
  {
  }
}
