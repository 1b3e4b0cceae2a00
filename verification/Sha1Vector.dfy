/** The digest of "abc", the first example of section 7.3 of RFC 3174, worked out five rounds at a time. */
module Sha1Vector {
  import BE = BigEndian
  import opened Sha1

  /** The rounds from `t` on, on five words of state and a window of sixteen words of the schedule. */
  function Run(t: nat, n: nat, a: bv32, b: bv32, c: bv32, d: bv32, e: bv32,
               w0: bv32, w1: bv32, w2: bv32, w3: bv32, w4: bv32, w5: bv32, w6: bv32, w7: bv32,
               w8: bv32, w9: bv32, w10: bv32, w11: bv32, w12: bv32, w13: bv32, w14: bv32, w15: bv32): (State, seq<bv32>)
    decreases n
  {
    if n == 0 then (State(a, b, c, d, e), [w0, w1, w2, w3, w4, w5, w6, w7, w8, w9, w10, w11, w12, w13, w14, w15])
    else
      Run(t + 1, n - 1, Sum(Rot(a, 5), F(t, b, c, d), e, K(t), w0), a, Rot(b, 30), c, d,
          w1, w2, w3, w4, w5, w6, w7, w8, w9, w10, w11, w12, w13, w14, w15, Rot(Xor(w13, w8, w2, w0), 1))
  }

  ghost predicate Window(block: Octets, t: nat, w: seq<bv32>)
    requires |block| == BLOCK
  {
    |w| == 16 && forall j :: 0 <= j < 16 ==> w[j] == W(block, t + j)
  }

  ghost function RunOn(t: nat, n: nat, s: State, w: seq<bv32>): (State, seq<bv32>)
    requires |w| == 16
  {
    Run(t, n, s.a, s.b, s.c, s.d, s.e, w[0], w[1], w[2], w[3], w[4], w[5], w[6], w[7],
        w[8], w[9], w[10], w[11], w[12], w[13], w[14], w[15])
  }

  /** The window one word further on. */
  function Shifted(w: seq<bv32>): seq<bv32>
    requires |w| == 16
  {
    w[1..] + [Rot(Xor(w[13], w[8], w[2], w[0]), 1)]
  }

  lemma WindowMoves(block: Octets, t: nat, w: seq<bv32>)
    requires |block| == BLOCK && Window(block, t, w)
    ensures Window(block, t + 1, Shifted(w)) && w[0] == W(block, t)
  {
    assert W(block, t + 16) == Rot(Xor(W(block, t + 13), W(block, t + 8), W(block, t + 2), W(block, t)), 1);
    hide W, Rot, Xor;
    forall j | 0 <= j < 16 ensures Shifted(w)[j] == W(block, t + 1 + j) {
      if j < 15 { assert Shifted(w)[j] == w[j + 1]; }
    }
  }

  lemma RunMoves(t: nat, n: nat, s: State, w: seq<bv32>)
    requires |w| == 16
    ensures RunOn(t, n + 1, s, w) == RunOn(t + 1, n, Step(s, t, w[0]), Shifted(w))
  {
    hide Rot, Xor, Sum, F, K;
  }

  lemma RunStops(t: nat, s: State, w: seq<bv32>)
    requires |w| == 16
    ensures RunOn(t, 0, s, w) == (s, w)
  {
    assert w == [w[0], w[1], w[2], w[3], w[4], w[5], w[6], w[7], w[8], w[9], w[10], w[11], w[12], w[13], w[14], w[15]];
  }

  /** Running `n` rounds on the window is what the standard's rounds and schedule do. */
  lemma {:induction false} RunIsRounds(block: Octets, t: nat, n: nat, s: State, w: seq<bv32>)
    requires |block| == BLOCK && |w| == 16 && Rounds(INITIAL, block, t) == s && Window(block, t, w)
    ensures var r := RunOn(t, n, s, w); Rounds(INITIAL, block, t + n) == r.0 && |r.1| == 16 && Window(block, t + n, r.1)
    decreases n
  {
    hide RunOn, Window, Step, W;
    if n == 0 {
      RunStops(t, s, w);
    } else {
      WindowMoves(block, t, w);
      RunMoves(t, n - 1, s, w);
      RunIsRounds(block, t + 1, n - 1, Step(s, t, w[0]), Shifted(w));
    }
  }

  /** The state and the window on the block of "abc" after `5 * k` rounds. */
  function At(k: nat): (r: (State, seq<bv32>))
    ensures |r.1| == 16
  {
    if k == 0 then (State(0x67452301, 0xEFCDAB89, 0x98BADCFE, 0x10325476, 0xC3D2E1F0),
      [0x61626380, 0x00000000, 0x00000000, 0x00000000, 0x00000000, 0x00000000, 0x00000000, 0x00000000,
       0x00000000, 0x00000000, 0x00000000, 0x00000000, 0x00000000, 0x00000000, 0x00000000, 0x00000018])
    else if k == 1 then (State(0xCFD499DE, 0xCDD8E11B, 0x284E43C2, 0x626414DB, 0xC045BF0C),
      [0x00000000, 0x00000000, 0x00000000, 0x00000000, 0x00000000, 0x00000000, 0x00000000, 0x00000000,
       0x00000000, 0x00000000, 0x00000018, 0xC2C4C700, 0x00000000, 0x00000030, 0x85898E01, 0x00000000])
    else if k == 2 then (State(0x8351F929, 0x4B6AE328, 0x27A301F5, 0x664F8C30, 0x0FF1F290),
      [0x00000000, 0x00000000, 0x00000000, 0x00000000, 0x00000000, 0x00000018, 0xC2C4C700, 0x00000000,
       0x00000030, 0x85898E01, 0x00000000, 0x00000060, 0x0B131C03, 0x00000030, 0x85898EC1, 0x16263806])
    else if k == 3 then (State(0x196BEE77, 0x9128F695, 0x1181ED99, 0x18C623F9, 0x7EF6A7A2),
      [0x00000018, 0xC2C4C700, 0x00000000, 0x00000030, 0x85898E01, 0x00000000, 0x00000060, 0x0B131C03,
       0x00000030, 0x85898EC1, 0x16263806, 0x00000000, 0x00000180, 0x2C4C700C, 0x000000F0, 0x93AFB507])
    else if k == 4 then (State(0xFD9E1D7D, 0xDC64901D, 0x20AA99CA, 0xD3A49608, 0xC82F758B),
      [0x00000000, 0x00000060, 0x0B131C03, 0x00000030, 0x85898EC1, 0x16263806, 0x00000000, 0x00000180,
       0x2C4C700C, 0x000000F0, 0x93AFB507, 0x5898E048, 0x8E9A9202, 0x00000600, 0xB131C0F0, 0x16263BC6])
    else if k == 5 then (State(0xC7567DC6, 0xD541F12D, 0x884A0D21, 0x0CE88EFF, 0x868DEC32),
      [0x16263806, 0x00000000, 0x00000180, 0x2C4C700C, 0x000000F0, 0x93AFB507, 0x5898E048, 0x8E9A9202,
       0x00000600, 0xB131C0F0, 0x16263BC6, 0x4EBED41E, 0x626380A1, 0x16263806, 0x000018C0, 0xD2E138C4])
    else if k == 6 then (State(0xC5FBAF5D, 0x8370B52E, 0xD2AA1365, 0x6F8D7EF5, 0x12104EE9),
      [0x93AFB507, 0x5898E048, 0x8E9A9202, 0x00000600, 0xB131C0F0, 0x16263BC6, 0x4EBED41E, 0x626380A1,
       0x16263806, 0x000018C0, 0xD2E138C4, 0x00000F00, 0x3AFB5079, 0x898E04E5, 0xE2BA3C2B, 0x000060C0])
    else if k == 7 then (State(0x21796AD4, 0x2C0EBC11, 0x811BEA82, 0xCEE1174C, 0xC499ED01),
      [0x16263BC6, 0x4EBED41E, 0x626380A1, 0x16263806, 0x000018C0, 0xD2E138C4, 0x00000F00, 0x3AFB5079,
       0x898E04E5, 0xE2BA3C2B, 0x000060C0, 0x053A37CD, 0x74458547, 0xDA9415ED, 0x26380A16, 0x626383A1])
    else if k == 8 then (State(0x32DE1CBA, 0x4C986405, 0xF718E5CF, 0x03D447F6, 0xF72EEC32),
      [0xD2E138C4, 0x00000F00, 0x3AFB5079, 0x898E04E5, 0xE2BA3C2B, 0x000060C0, 0x053A37CD, 0x74458547,
       0xDA9415ED, 0x26380A16, 0x626383A1, 0x4EBF54DE, 0x3835B44B, 0x0000F600, 0x1E84C7A3, 0x98E04D98])
    else if k == 9 then (State(0x40F28E09, 0xEE1B1AAF, 0x5FC64F71, 0x25C28357, 0xFF21F7B7),
      [0x000060C0, 0x053A37CD, 0x74458547, 0xDA9415ED, 0x26380A16, 0x626383A1, 0x4EBF54DE, 0x3835B44B,
       0x0000F600, 0x1E84C7A3, 0x98E04D98, 0x651D16A0, 0x62658CA1, 0x458544D6, 0x44584CB7, 0x7BA06619])
    else if k == 10 then (State(0x120731C5, 0xBAF39337, 0xAFAB40B2, 0x2806E11B, 0x8714787C),
      [0x626383A1, 0x4EBF54DE, 0x3835B44B, 0x0000F600, 0x1E84C7A3, 0x98E04D98, 0x651D16A0, 0x62658CA1,
       0x458544D6, 0x44584CB7, 0x7BA06619, 0x6380AEA2, 0x0AE55269, 0x627B49A1, 0x7CD45C9D, 0x000F0000])
    else if k == 11 then (State(0x7B71F76D, 0x27E9F1D8, 0x792410DB, 0x8E11EB59, 0x99076CB3),
      [0x98E04D98, 0x651D16A0, 0x62658CA1, 0x458544D6, 0x44584CB7, 0x7BA06619, 0x6380AEA2, 0x0AE55269,
       0x627B49A1, 0x7CD45C9D, 0x000F0000, 0xFB50753A, 0xEC6765E8, 0xBA3C2BE2, 0x0060C000, 0x3A37CD05])
    else if k == 12 then (State(0x3F52DE5A, 0x09D785FD, 0x3498BFD4, 0xF211824F, 0xD79915AB),
      [0x7BA06619, 0x6380AEA2, 0x0AE55269, 0x627B49A1, 0x7CD45C9D, 0x000F0000, 0xFB50753A, 0xEC6765E8,
       0xBA3C2BE2, 0x0060C000, 0x3A37CD05, 0x458546F4, 0xB8599DD6, 0x380A1A26, 0x01E02203, 0xE7CC3456])
    else if k == 13 then (State(0x19DFA7AC, 0x6B61C9E1, 0xED9B0082, 0x9523272C, 0xF5D5B051),
      [0x000F0000, 0xFB50753A, 0xEC6765E8, 0xBA3C2BE2, 0x0060C000, 0x3A37CD05, 0x458546F4, 0xB8599DD6,
       0x380A1A26, 0x01E02203, 0xE7CC3456, 0xE6E60B69, 0x00F60A00, 0x5795EF4F, 0x822E0879, 0x7E577CE2])
    else if k == 14 then (State(0x3F2588C2, 0x497093C0, 0xDE37534A, 0x030F7CAD, 0x4405957E),
      [0x3A37CD05, 0x458546F4, 0xB8599DD6, 0x380A1A26, 0x01E02203, 0xE7CC3456, 0xE6E60B69, 0x00F60A00,
       0x5795EF4F, 0x822E0879, 0x7E577CE2, 0x07EF2103, 0x8544E945, 0xEB39DAB8, 0xC205991A, 0x80AECB63])
    else if k == 15 then (State(0x5EE76897, 0x11793F6F, 0x3B6D0B79, 0xCE616779, 0xF0667E31),
      [0xE7CC3456, 0xE6E60B69, 0x00F60A00, 0x5795EF4F, 0x822E0879, 0x7E577CE2, 0x07EF2103, 0x8544E945,
       0xEB39DAB8, 0xC205991A, 0x80AECB63, 0x7D84CA48, 0x7B499B62, 0x8E8010A8, 0x4B5B8A77, 0x3216B69A])
    else (State(0x42541B35, 0x5738D5E1, 0x21834873, 0x681E6DF6, 0xD8FDF6AD),
      [0x7E577CE2, 0x07EF2103, 0x8544E945, 0xEB39DAB8, 0xC205991A, 0x80AECB63, 0x7D84CA48, 0x7B499B62,
       0x8E8010A8, 0x4B5B8A77, 0x3216B69A, 0x0507E88D, 0x705BEE96, 0x60C0FF00, 0xA28362D0, 0x1DA6B91D])
  }

  lemma Five0()
    ensures Run(0, 5, 0x67452301, 0xEFCDAB89, 0x98BADCFE, 0x10325476, 0xC3D2E1F0,
                0x61626380, 0x00000000, 0x00000000, 0x00000000, 0x00000000, 0x00000000, 0x00000000, 0x00000000,
                0x00000000, 0x00000000, 0x00000000, 0x00000000, 0x00000000, 0x00000000, 0x00000000, 0x00000018)
            == (State(0xCFD499DE, 0xCDD8E11B, 0x284E43C2, 0x626414DB, 0xC045BF0C),
                [0x00000000, 0x00000000, 0x00000000, 0x00000000, 0x00000000, 0x00000000, 0x00000000, 0x00000000,
                 0x00000000, 0x00000000, 0x00000018, 0xC2C4C700, 0x00000000, 0x00000030, 0x85898E01, 0x00000000])
  {}

  lemma Five1()
    ensures Run(5, 5, 0xCFD499DE, 0xCDD8E11B, 0x284E43C2, 0x626414DB, 0xC045BF0C,
                0x00000000, 0x00000000, 0x00000000, 0x00000000, 0x00000000, 0x00000000, 0x00000000, 0x00000000,
                0x00000000, 0x00000000, 0x00000018, 0xC2C4C700, 0x00000000, 0x00000030, 0x85898E01, 0x00000000)
            == (State(0x8351F929, 0x4B6AE328, 0x27A301F5, 0x664F8C30, 0x0FF1F290),
                [0x00000000, 0x00000000, 0x00000000, 0x00000000, 0x00000000, 0x00000018, 0xC2C4C700, 0x00000000,
                 0x00000030, 0x85898E01, 0x00000000, 0x00000060, 0x0B131C03, 0x00000030, 0x85898EC1, 0x16263806])
  {}

  lemma Five2()
    ensures Run(10, 5, 0x8351F929, 0x4B6AE328, 0x27A301F5, 0x664F8C30, 0x0FF1F290,
                0x00000000, 0x00000000, 0x00000000, 0x00000000, 0x00000000, 0x00000018, 0xC2C4C700, 0x00000000,
                0x00000030, 0x85898E01, 0x00000000, 0x00000060, 0x0B131C03, 0x00000030, 0x85898EC1, 0x16263806)
            == (State(0x196BEE77, 0x9128F695, 0x1181ED99, 0x18C623F9, 0x7EF6A7A2),
                [0x00000018, 0xC2C4C700, 0x00000000, 0x00000030, 0x85898E01, 0x00000000, 0x00000060, 0x0B131C03,
                 0x00000030, 0x85898EC1, 0x16263806, 0x00000000, 0x00000180, 0x2C4C700C, 0x000000F0, 0x93AFB507])
  {}

  lemma Five3()
    ensures Run(15, 5, 0x196BEE77, 0x9128F695, 0x1181ED99, 0x18C623F9, 0x7EF6A7A2,
                0x00000018, 0xC2C4C700, 0x00000000, 0x00000030, 0x85898E01, 0x00000000, 0x00000060, 0x0B131C03,
                0x00000030, 0x85898EC1, 0x16263806, 0x00000000, 0x00000180, 0x2C4C700C, 0x000000F0, 0x93AFB507)
            == (State(0xFD9E1D7D, 0xDC64901D, 0x20AA99CA, 0xD3A49608, 0xC82F758B),
                [0x00000000, 0x00000060, 0x0B131C03, 0x00000030, 0x85898EC1, 0x16263806, 0x00000000, 0x00000180,
                 0x2C4C700C, 0x000000F0, 0x93AFB507, 0x5898E048, 0x8E9A9202, 0x00000600, 0xB131C0F0, 0x16263BC6])
  {}

  lemma Five4()
    ensures Run(20, 5, 0xFD9E1D7D, 0xDC64901D, 0x20AA99CA, 0xD3A49608, 0xC82F758B,
                0x00000000, 0x00000060, 0x0B131C03, 0x00000030, 0x85898EC1, 0x16263806, 0x00000000, 0x00000180,
                0x2C4C700C, 0x000000F0, 0x93AFB507, 0x5898E048, 0x8E9A9202, 0x00000600, 0xB131C0F0, 0x16263BC6)
            == (State(0xC7567DC6, 0xD541F12D, 0x884A0D21, 0x0CE88EFF, 0x868DEC32),
                [0x16263806, 0x00000000, 0x00000180, 0x2C4C700C, 0x000000F0, 0x93AFB507, 0x5898E048, 0x8E9A9202,
                 0x00000600, 0xB131C0F0, 0x16263BC6, 0x4EBED41E, 0x626380A1, 0x16263806, 0x000018C0, 0xD2E138C4])
  {}

  lemma Five5()
    ensures Run(25, 5, 0xC7567DC6, 0xD541F12D, 0x884A0D21, 0x0CE88EFF, 0x868DEC32,
                0x16263806, 0x00000000, 0x00000180, 0x2C4C700C, 0x000000F0, 0x93AFB507, 0x5898E048, 0x8E9A9202,
                0x00000600, 0xB131C0F0, 0x16263BC6, 0x4EBED41E, 0x626380A1, 0x16263806, 0x000018C0, 0xD2E138C4)
            == (State(0xC5FBAF5D, 0x8370B52E, 0xD2AA1365, 0x6F8D7EF5, 0x12104EE9),
                [0x93AFB507, 0x5898E048, 0x8E9A9202, 0x00000600, 0xB131C0F0, 0x16263BC6, 0x4EBED41E, 0x626380A1,
                 0x16263806, 0x000018C0, 0xD2E138C4, 0x00000F00, 0x3AFB5079, 0x898E04E5, 0xE2BA3C2B, 0x000060C0])
  {}

  lemma Five6()
    ensures Run(30, 5, 0xC5FBAF5D, 0x8370B52E, 0xD2AA1365, 0x6F8D7EF5, 0x12104EE9,
                0x93AFB507, 0x5898E048, 0x8E9A9202, 0x00000600, 0xB131C0F0, 0x16263BC6, 0x4EBED41E, 0x626380A1,
                0x16263806, 0x000018C0, 0xD2E138C4, 0x00000F00, 0x3AFB5079, 0x898E04E5, 0xE2BA3C2B, 0x000060C0)
            == (State(0x21796AD4, 0x2C0EBC11, 0x811BEA82, 0xCEE1174C, 0xC499ED01),
                [0x16263BC6, 0x4EBED41E, 0x626380A1, 0x16263806, 0x000018C0, 0xD2E138C4, 0x00000F00, 0x3AFB5079,
                 0x898E04E5, 0xE2BA3C2B, 0x000060C0, 0x053A37CD, 0x74458547, 0xDA9415ED, 0x26380A16, 0x626383A1])
  {}

  lemma Five7()
    ensures Run(35, 5, 0x21796AD4, 0x2C0EBC11, 0x811BEA82, 0xCEE1174C, 0xC499ED01,
                0x16263BC6, 0x4EBED41E, 0x626380A1, 0x16263806, 0x000018C0, 0xD2E138C4, 0x00000F00, 0x3AFB5079,
                0x898E04E5, 0xE2BA3C2B, 0x000060C0, 0x053A37CD, 0x74458547, 0xDA9415ED, 0x26380A16, 0x626383A1)
            == (State(0x32DE1CBA, 0x4C986405, 0xF718E5CF, 0x03D447F6, 0xF72EEC32),
                [0xD2E138C4, 0x00000F00, 0x3AFB5079, 0x898E04E5, 0xE2BA3C2B, 0x000060C0, 0x053A37CD, 0x74458547,
                 0xDA9415ED, 0x26380A16, 0x626383A1, 0x4EBF54DE, 0x3835B44B, 0x0000F600, 0x1E84C7A3, 0x98E04D98])
  {}

  lemma Five8()
    ensures Run(40, 5, 0x32DE1CBA, 0x4C986405, 0xF718E5CF, 0x03D447F6, 0xF72EEC32,
                0xD2E138C4, 0x00000F00, 0x3AFB5079, 0x898E04E5, 0xE2BA3C2B, 0x000060C0, 0x053A37CD, 0x74458547,
                0xDA9415ED, 0x26380A16, 0x626383A1, 0x4EBF54DE, 0x3835B44B, 0x0000F600, 0x1E84C7A3, 0x98E04D98)
            == (State(0x40F28E09, 0xEE1B1AAF, 0x5FC64F71, 0x25C28357, 0xFF21F7B7),
                [0x000060C0, 0x053A37CD, 0x74458547, 0xDA9415ED, 0x26380A16, 0x626383A1, 0x4EBF54DE, 0x3835B44B,
                 0x0000F600, 0x1E84C7A3, 0x98E04D98, 0x651D16A0, 0x62658CA1, 0x458544D6, 0x44584CB7, 0x7BA06619])
  {}

  lemma Five9()
    ensures Run(45, 5, 0x40F28E09, 0xEE1B1AAF, 0x5FC64F71, 0x25C28357, 0xFF21F7B7,
                0x000060C0, 0x053A37CD, 0x74458547, 0xDA9415ED, 0x26380A16, 0x626383A1, 0x4EBF54DE, 0x3835B44B,
                0x0000F600, 0x1E84C7A3, 0x98E04D98, 0x651D16A0, 0x62658CA1, 0x458544D6, 0x44584CB7, 0x7BA06619)
            == (State(0x120731C5, 0xBAF39337, 0xAFAB40B2, 0x2806E11B, 0x8714787C),
                [0x626383A1, 0x4EBF54DE, 0x3835B44B, 0x0000F600, 0x1E84C7A3, 0x98E04D98, 0x651D16A0, 0x62658CA1,
                 0x458544D6, 0x44584CB7, 0x7BA06619, 0x6380AEA2, 0x0AE55269, 0x627B49A1, 0x7CD45C9D, 0x000F0000])
  {}

  lemma Five10()
    ensures Run(50, 5, 0x120731C5, 0xBAF39337, 0xAFAB40B2, 0x2806E11B, 0x8714787C,
                0x626383A1, 0x4EBF54DE, 0x3835B44B, 0x0000F600, 0x1E84C7A3, 0x98E04D98, 0x651D16A0, 0x62658CA1,
                0x458544D6, 0x44584CB7, 0x7BA06619, 0x6380AEA2, 0x0AE55269, 0x627B49A1, 0x7CD45C9D, 0x000F0000)
            == (State(0x7B71F76D, 0x27E9F1D8, 0x792410DB, 0x8E11EB59, 0x99076CB3),
                [0x98E04D98, 0x651D16A0, 0x62658CA1, 0x458544D6, 0x44584CB7, 0x7BA06619, 0x6380AEA2, 0x0AE55269,
                 0x627B49A1, 0x7CD45C9D, 0x000F0000, 0xFB50753A, 0xEC6765E8, 0xBA3C2BE2, 0x0060C000, 0x3A37CD05])
  {}

  lemma Five11()
    ensures Run(55, 5, 0x7B71F76D, 0x27E9F1D8, 0x792410DB, 0x8E11EB59, 0x99076CB3,
                0x98E04D98, 0x651D16A0, 0x62658CA1, 0x458544D6, 0x44584CB7, 0x7BA06619, 0x6380AEA2, 0x0AE55269,
                0x627B49A1, 0x7CD45C9D, 0x000F0000, 0xFB50753A, 0xEC6765E8, 0xBA3C2BE2, 0x0060C000, 0x3A37CD05)
            == (State(0x3F52DE5A, 0x09D785FD, 0x3498BFD4, 0xF211824F, 0xD79915AB),
                [0x7BA06619, 0x6380AEA2, 0x0AE55269, 0x627B49A1, 0x7CD45C9D, 0x000F0000, 0xFB50753A, 0xEC6765E8,
                 0xBA3C2BE2, 0x0060C000, 0x3A37CD05, 0x458546F4, 0xB8599DD6, 0x380A1A26, 0x01E02203, 0xE7CC3456])
  {}

  lemma Five12()
    ensures Run(60, 5, 0x3F52DE5A, 0x09D785FD, 0x3498BFD4, 0xF211824F, 0xD79915AB,
                0x7BA06619, 0x6380AEA2, 0x0AE55269, 0x627B49A1, 0x7CD45C9D, 0x000F0000, 0xFB50753A, 0xEC6765E8,
                0xBA3C2BE2, 0x0060C000, 0x3A37CD05, 0x458546F4, 0xB8599DD6, 0x380A1A26, 0x01E02203, 0xE7CC3456)
            == (State(0x19DFA7AC, 0x6B61C9E1, 0xED9B0082, 0x9523272C, 0xF5D5B051),
                [0x000F0000, 0xFB50753A, 0xEC6765E8, 0xBA3C2BE2, 0x0060C000, 0x3A37CD05, 0x458546F4, 0xB8599DD6,
                 0x380A1A26, 0x01E02203, 0xE7CC3456, 0xE6E60B69, 0x00F60A00, 0x5795EF4F, 0x822E0879, 0x7E577CE2])
  {}

  lemma Five13()
    ensures Run(65, 5, 0x19DFA7AC, 0x6B61C9E1, 0xED9B0082, 0x9523272C, 0xF5D5B051,
                0x000F0000, 0xFB50753A, 0xEC6765E8, 0xBA3C2BE2, 0x0060C000, 0x3A37CD05, 0x458546F4, 0xB8599DD6,
                0x380A1A26, 0x01E02203, 0xE7CC3456, 0xE6E60B69, 0x00F60A00, 0x5795EF4F, 0x822E0879, 0x7E577CE2)
            == (State(0x3F2588C2, 0x497093C0, 0xDE37534A, 0x030F7CAD, 0x4405957E),
                [0x3A37CD05, 0x458546F4, 0xB8599DD6, 0x380A1A26, 0x01E02203, 0xE7CC3456, 0xE6E60B69, 0x00F60A00,
                 0x5795EF4F, 0x822E0879, 0x7E577CE2, 0x07EF2103, 0x8544E945, 0xEB39DAB8, 0xC205991A, 0x80AECB63])
  {}

  lemma Five14()
    ensures Run(70, 5, 0x3F2588C2, 0x497093C0, 0xDE37534A, 0x030F7CAD, 0x4405957E,
                0x3A37CD05, 0x458546F4, 0xB8599DD6, 0x380A1A26, 0x01E02203, 0xE7CC3456, 0xE6E60B69, 0x00F60A00,
                0x5795EF4F, 0x822E0879, 0x7E577CE2, 0x07EF2103, 0x8544E945, 0xEB39DAB8, 0xC205991A, 0x80AECB63)
            == (State(0x5EE76897, 0x11793F6F, 0x3B6D0B79, 0xCE616779, 0xF0667E31),
                [0xE7CC3456, 0xE6E60B69, 0x00F60A00, 0x5795EF4F, 0x822E0879, 0x7E577CE2, 0x07EF2103, 0x8544E945,
                 0xEB39DAB8, 0xC205991A, 0x80AECB63, 0x7D84CA48, 0x7B499B62, 0x8E8010A8, 0x4B5B8A77, 0x3216B69A])
  {}

  lemma Five15()
    ensures Run(75, 5, 0x5EE76897, 0x11793F6F, 0x3B6D0B79, 0xCE616779, 0xF0667E31,
                0xE7CC3456, 0xE6E60B69, 0x00F60A00, 0x5795EF4F, 0x822E0879, 0x7E577CE2, 0x07EF2103, 0x8544E945,
                0xEB39DAB8, 0xC205991A, 0x80AECB63, 0x7D84CA48, 0x7B499B62, 0x8E8010A8, 0x4B5B8A77, 0x3216B69A)
            == (State(0x42541B35, 0x5738D5E1, 0x21834873, 0x681E6DF6, 0xD8FDF6AD),
                [0x7E577CE2, 0x07EF2103, 0x8544E945, 0xEB39DAB8, 0xC205991A, 0x80AECB63, 0x7D84CA48, 0x7B499B62,
                 0x8E8010A8, 0x4B5B8A77, 0x3216B69A, 0x0507E88D, 0x705BEE96, 0x60C0FF00, 0xA28362D0, 0x1DA6B91D])
  {}

  lemma From(k: nat)
    requires k < 16
    ensures RunOn(5 * k, 5, At(k).0, At(k).1) == At(k + 1)
  {
    hide Run;
    if k == 0 {
      Five0();
    } else if k == 1 {
      Five1();
    } else if k == 2 {
      Five2();
    } else if k == 3 {
      Five3();
    } else if k == 4 {
      Five4();
    } else if k == 5 {
      Five5();
    } else if k == 6 {
      Five6();
    } else if k == 7 {
      Five7();
    } else if k == 8 {
      Five8();
    } else if k == 9 {
      Five9();
    } else if k == 10 {
      Five10();
    } else if k == 11 {
      Five11();
    } else if k == 12 {
      Five12();
    } else if k == 13 {
      Five13();
    } else if k == 14 {
      Five14();
    } else {
      Five15();
    }
  }

  /** The rounds on the block, five at a time. */
  lemma {:induction false} AbcRounds(block: Octets, k: nat)
    requires |block| == BLOCK && Window(block, 0, At(0).1) && k <= 16
    ensures Rounds(INITIAL, block, 5 * k) == At(k).0 && Window(block, 5 * k, At(k).1)
  {
    if k == 0 {
      assert Rounds(INITIAL, block, 0) == INITIAL == At(0).0;
    } else {
      hide Window, Rounds, RunOn, At;
      AbcRounds(block, k - 1);
      From(k - 1);
      RunIsRounds(block, 5 * (k - 1), 5, At(k - 1).0, At(k - 1).1);
    }
  }

  /** "abc" and its padding. */
  lemma AbcPadded() returns (block: Octets)
    ensures block == Pad([0x61, 0x62, 0x63]) && |block| == BLOCK && Blocks(3) == 1
    ensures block[0] == 0x61 && block[1] == 0x62 && block[2] == 0x63 && block[3] == 0x80
    ensures (forall i :: 4 <= i < 63 ==> block[i] == 0) && block[63] == 0x18
  {
    block := Pad([0x61, 0x62, 0x63]);
    assert BE.Encode(24, 8) == BE.Encode(0, 7) + [24];
    ZeroField(7);
  }

  lemma {:induction false} ZeroField(n: nat)
    ensures forall i :: 0 <= i < n ==> BE.Encode(0, n)[i] == 0
  {
    if n > 0 { ZeroField(n - 1); }
  }

  lemma AbcWindow(block: Octets)
    requires |block| == BLOCK
    requires block[0] == 0x61 && block[1] == 0x62 && block[2] == 0x63 && block[3] == 0x80
    requires (forall i :: 4 <= i < 63 ==> block[i] == 0) && block[63] == 0x18
    ensures Window(block, 0, At(0).1)
  {
    assert Word(0x61, 0x62, 0x63, 0x80) == 0x61626380 && Word(0, 0, 0, 0x18) == 0x18 && Word(0, 0, 0, 0) == 0;
  }

  lemma Last()
    ensures At(16).0 == State(0x42541B35, 0x5738D5E1, 0x21834873, 0x681E6DF6, 0xD8FDF6AD)
  {}

  /** SHA-1 of "abc". */
  lemma AbcDigest()
    ensures Digest([0x61, 0x62, 0x63]) ==
            [0xa9, 0x99, 0x3e, 0x36, 0x47, 0x06, 0x81, 0x6a, 0xba, 0x3e, 0x25, 0x71, 0x78, 0x50, 0xc2, 0x6c, 0x9c, 0xd0, 0xd8, 0x9d]
  {
    hide Window, Rounds, Pad, W, At;
    var block := AbcPadded();
    AbcWindow(block);
    AbcRounds(block, 16);
    Last();
    assert block[..0] == [] && block[0..] == block;
    assert Absorb(INITIAL, block[..0], 0) == INITIAL;
    assert Absorb(INITIAL, block, 1) == Compress(INITIAL, block);
    assert Compress(INITIAL, block) == State(0xa9993e36, 0x4706816a, 0xba3e2571, 0x7850c26c, 0x9cd0d89d);
  }
}
