/** The digest of "abc", the example of FIPS 180, computed word by word and round
    by round. */
module Sha1Answers {
  import opened Sha1
  import opened Words

  lemma BackToBits(x: bv32)
    ensures (x as int) as bv32 == x
  {
  }

  lemma XorIs(x: bv32, y: bv32)
    ensures Xor(x as int, y as int) == XorBits(x, y) as int
  {
    hide XorBits;
    BackToBits(x);
    BackToBits(y);
  }

  lemma Rotl1Is(x: bv32)
    ensures Rotl1(x as int) == Left1(x) as int
  {
    hide Left1;
    BackToBits(x);
  }

  lemma Mixed(a: bv32, b: bv32, c: bv32, d: bv32, w: bv32)
    requires Left1(XorBits(XorBits(XorBits(a, b), c), d)) == w
    ensures Rotl1(Xor(Xor(Xor(a as int, b as int), c as int), d as int)) == w as int
  {
    hide Xor, XorBits, Rotl1, Left1;
    XorIs(a, b);
    XorIs(XorBits(a, b), c);
    XorIs(XorBits(XorBits(a, b), c), d);
    Rotl1Is(XorBits(XorBits(XorBits(a, b), c), d));
  }

  /** Word `t` of the schedule, from the four that it is made of. */
  lemma WordIs(m: Block, t: nat, a: bv32, b: bv32, c: bv32, d: bv32, w: bv32)
    requires t >= 16 && W(m, t - 3) == a as int && W(m, t - 8) == b as int
    requires W(m, t - 14) == c as int && W(m, t - 16) == d as int
    requires Left1(XorBits(XorBits(XorBits(a, b), c), d)) == w
    ensures W(m, t) == w as int
  {
    hide Xor, XorBits, Rotl1, Left1;
    Mixed(a, b, c, d, w);
  }

  lemma Rotl5Is(x: bv32)
    ensures Rotl5(x as int) == Left5(x) as int
  {
    hide Left5;
    BackToBits(x);
  }

  lemma Rotl30Is(x: bv32)
    ensures Rotl30(x as int) == Left30(x) as int
  {
    hide Left30;
    BackToBits(x);
  }

  lemma FIs(t: nat, x: bv32, y: bv32, z: bv32)
    ensures F(t, x as int, y as int, z as int) == FBits(t, x, y, z) as int
  {
    hide FBits;
    BackToBits(x);
    BackToBits(y);
    BackToBits(z);
  }

  lemma RoundWords(h: Hash, m: Block, t: nat, r: Hash, w: u32, l5: u32, f: u32, l30: u32, n: u32)
    requires Rounds(h, m, t) == r && W(m, t) == w
    requires Rotl5(r.a) == l5 && F(t, r.b, r.c, r.d) == f && Rotl30(r.b) == l30
    requires n == Add32(Add32(Add32(Add32(l5, f), r.e), K(t)), w)
    ensures Rounds(h, m, t + 1) == Hash(n, r.a, l30, r.c, r.d)
  {
    hide Rotl5, Rotl30, F, Add32, K, W;
  }

  lemma PartsAre(t: nat, a: bv32, b: bv32, c: bv32, d: bv32, l5: bv32, f: bv32, l30: bv32)
    requires Left5(a) == l5 && FBits(t, b, c, d) == f && Left30(b) == l30
    ensures Rotl5(a as int) == l5 as int && Rotl30(b as int) == l30 as int
    ensures F(t, b as int, c as int, d as int) == f as int
  {
    hide Rotl5, Rotl30, F, Left5, Left30, FBits;
    Rotl5Is(a);
    Rotl30Is(b);
    FIs(t, b, c, d);
  }

  /** The one block of the padded message. */
  predicate IsAbc(m: seq<byte>) {
    && |m| == 64 && m[0] == 0x61 && m[1] == 0x62 && m[2] == 0x63 && m[3] == 0x80
    && (forall i | 4 <= i < 63 :: m[i] == 0) && m[63] == 0x18
  }

  lemma FirstWords(m: Block, t: nat)
    requires IsAbc(m) && t < 16
    ensures W(m, t) == if t == 0 then 0x61626380 else if t == 15 then 0x18 else 0
  {
  }

  lemma Words16(m: Block, t: nat)
    requires t == 16
    requires W(m, t - 16) == 0x61626380 && W(m, t - 15) == 0x0 && W(m, t - 14) == 0x0
    requires W(m, t - 13) == 0x0 && W(m, t - 12) == 0x0 && W(m, t - 11) == 0x0
    requires W(m, t - 10) == 0x0 && W(m, t - 9) == 0x0 && W(m, t - 8) == 0x0
    requires W(m, t - 7) == 0x0 && W(m, t - 6) == 0x0 && W(m, t - 5) == 0x0
    requires W(m, t - 4) == 0x0 && W(m, t - 3) == 0x0 && W(m, t - 2) == 0x0
    requires W(m, t - 1) == 0x18
    ensures W(m, t + 0) == 0xC2C4C700 && W(m, t + 1) == 0x0 && W(m, t + 2) == 0x30
    ensures W(m, t + 3) == 0x85898E01 && W(m, t + 4) == 0x0 && W(m, t + 5) == 0x60
    ensures W(m, t + 6) == 0xB131C03 && W(m, t + 7) == 0x30
  {
    hide W;
    WordIs(m, t + 0, 0x00000000, 0x00000000, 0x00000000, 0x61626380, 0xC2C4C700);
    WordIs(m, t + 1, 0x00000000, 0x00000000, 0x00000000, 0x00000000, 0x00000000);
    WordIs(m, t + 2, 0x00000018, 0x00000000, 0x00000000, 0x00000000, 0x00000030);
    WordIs(m, t + 3, 0xC2C4C700, 0x00000000, 0x00000000, 0x00000000, 0x85898E01);
    WordIs(m, t + 4, 0x00000000, 0x00000000, 0x00000000, 0x00000000, 0x00000000);
    WordIs(m, t + 5, 0x00000030, 0x00000000, 0x00000000, 0x00000000, 0x00000060);
    WordIs(m, t + 6, 0x85898E01, 0x00000000, 0x00000000, 0x00000000, 0x0B131C03);
    WordIs(m, t + 7, 0x00000000, 0x00000018, 0x00000000, 0x00000000, 0x00000030);
  }

  lemma Words24(m: Block, t: nat)
    requires t == 24
    requires W(m, t - 16) == 0x0 && W(m, t - 15) == 0x0 && W(m, t - 14) == 0x0
    requires W(m, t - 13) == 0x0 && W(m, t - 12) == 0x0 && W(m, t - 11) == 0x0
    requires W(m, t - 10) == 0x0 && W(m, t - 9) == 0x18 && W(m, t - 8) == 0xC2C4C700
    requires W(m, t - 7) == 0x0 && W(m, t - 6) == 0x30 && W(m, t - 5) == 0x85898E01
    requires W(m, t - 4) == 0x0 && W(m, t - 3) == 0x60 && W(m, t - 2) == 0xB131C03
    requires W(m, t - 1) == 0x30
    ensures W(m, t + 0) == 0x85898EC1 && W(m, t + 1) == 0x16263806 && W(m, t + 2) == 0x0
    ensures W(m, t + 3) == 0x180 && W(m, t + 4) == 0x2C4C700C && W(m, t + 5) == 0xF0
    ensures W(m, t + 6) == 0x93AFB507 && W(m, t + 7) == 0x5898E048
  {
    hide W;
    WordIs(m, t + 0, 0x00000060, 0xC2C4C700, 0x00000000, 0x00000000, 0x85898EC1);
    WordIs(m, t + 1, 0x0B131C03, 0x00000000, 0x00000000, 0x00000000, 0x16263806);
    WordIs(m, t + 2, 0x00000030, 0x00000030, 0x00000000, 0x00000000, 0x00000000);
    WordIs(m, t + 3, 0x85898EC1, 0x85898E01, 0x00000000, 0x00000000, 0x00000180);
    WordIs(m, t + 4, 0x16263806, 0x00000000, 0x00000000, 0x00000000, 0x2C4C700C);
    WordIs(m, t + 5, 0x00000000, 0x00000060, 0x00000018, 0x00000000, 0x000000F0);
    WordIs(m, t + 6, 0x00000180, 0x0B131C03, 0xC2C4C700, 0x00000000, 0x93AFB507);
    WordIs(m, t + 7, 0x2C4C700C, 0x00000030, 0x00000000, 0x00000018, 0x5898E048);
  }

  lemma Words32(m: Block, t: nat)
    requires t == 32
    requires W(m, t - 16) == 0xC2C4C700 && W(m, t - 15) == 0x0 && W(m, t - 14) == 0x30
    requires W(m, t - 13) == 0x85898E01 && W(m, t - 12) == 0x0 && W(m, t - 11) == 0x60
    requires W(m, t - 10) == 0xB131C03 && W(m, t - 9) == 0x30 && W(m, t - 8) == 0x85898EC1
    requires W(m, t - 7) == 0x16263806 && W(m, t - 6) == 0x0 && W(m, t - 5) == 0x180
    requires W(m, t - 4) == 0x2C4C700C && W(m, t - 3) == 0xF0 && W(m, t - 2) == 0x93AFB507
    requires W(m, t - 1) == 0x5898E048
    ensures W(m, t + 0) == 0x8E9A9202 && W(m, t + 1) == 0x600 && W(m, t + 2) == 0xB131C0F0
    ensures W(m, t + 3) == 0x16263BC6 && W(m, t + 4) == 0x4EBED41E && W(m, t + 5) == 0x626380A1
    ensures W(m, t + 6) == 0x16263806 && W(m, t + 7) == 0x18C0
  {
    hide W;
    WordIs(m, t + 0, 0x000000F0, 0x85898EC1, 0x00000030, 0xC2C4C700, 0x8E9A9202);
    WordIs(m, t + 1, 0x93AFB507, 0x16263806, 0x85898E01, 0x00000000, 0x00000600);
    WordIs(m, t + 2, 0x5898E048, 0x00000000, 0x00000000, 0x00000030, 0xB131C0F0);
    WordIs(m, t + 3, 0x8E9A9202, 0x00000180, 0x00000060, 0x85898E01, 0x16263BC6);
    WordIs(m, t + 4, 0x00000600, 0x2C4C700C, 0x0B131C03, 0x00000000, 0x4EBED41E);
    WordIs(m, t + 5, 0xB131C0F0, 0x000000F0, 0x00000030, 0x00000060, 0x626380A1);
    WordIs(m, t + 6, 0x16263BC6, 0x93AFB507, 0x85898EC1, 0x0B131C03, 0x16263806);
    WordIs(m, t + 7, 0x4EBED41E, 0x5898E048, 0x16263806, 0x00000030, 0x000018C0);
  }

  lemma Words40(m: Block, t: nat)
    requires t == 40
    requires W(m, t - 16) == 0x85898EC1 && W(m, t - 15) == 0x16263806 && W(m, t - 14) == 0x0
    requires W(m, t - 13) == 0x180 && W(m, t - 12) == 0x2C4C700C && W(m, t - 11) == 0xF0
    requires W(m, t - 10) == 0x93AFB507 && W(m, t - 9) == 0x5898E048 && W(m, t - 8) == 0x8E9A9202
    requires W(m, t - 7) == 0x600 && W(m, t - 6) == 0xB131C0F0 && W(m, t - 5) == 0x16263BC6
    requires W(m, t - 4) == 0x4EBED41E && W(m, t - 3) == 0x626380A1 && W(m, t - 2) == 0x16263806
    requires W(m, t - 1) == 0x18C0
    ensures W(m, t + 0) == 0xD2E138C4 && W(m, t + 1) == 0xF00 && W(m, t + 2) == 0x3AFB5079
    ensures W(m, t + 3) == 0x898E04E5 && W(m, t + 4) == 0xE2BA3C2B && W(m, t + 5) == 0x60C0
    ensures W(m, t + 6) == 0x53A37CD && W(m, t + 7) == 0x74458547
  {
    hide W;
    WordIs(m, t + 0, 0x626380A1, 0x8E9A9202, 0x00000000, 0x85898EC1, 0xD2E138C4);
    WordIs(m, t + 1, 0x16263806, 0x00000600, 0x00000180, 0x16263806, 0x00000F00);
    WordIs(m, t + 2, 0x000018C0, 0xB131C0F0, 0x2C4C700C, 0x00000000, 0x3AFB5079);
    WordIs(m, t + 3, 0xD2E138C4, 0x16263BC6, 0x000000F0, 0x00000180, 0x898E04E5);
    WordIs(m, t + 4, 0x00000F00, 0x4EBED41E, 0x93AFB507, 0x2C4C700C, 0xE2BA3C2B);
    WordIs(m, t + 5, 0x3AFB5079, 0x626380A1, 0x5898E048, 0x000000F0, 0x000060C0);
    WordIs(m, t + 6, 0x898E04E5, 0x16263806, 0x8E9A9202, 0x93AFB507, 0x053A37CD);
    WordIs(m, t + 7, 0xE2BA3C2B, 0x000018C0, 0x00000600, 0x5898E048, 0x74458547);
  }

  lemma Words48(m: Block, t: nat)
    requires t == 48
    requires W(m, t - 16) == 0x8E9A9202 && W(m, t - 15) == 0x600 && W(m, t - 14) == 0xB131C0F0
    requires W(m, t - 13) == 0x16263BC6 && W(m, t - 12) == 0x4EBED41E && W(m, t - 11) == 0x626380A1
    requires W(m, t - 10) == 0x16263806 && W(m, t - 9) == 0x18C0 && W(m, t - 8) == 0xD2E138C4
    requires W(m, t - 7) == 0xF00 && W(m, t - 6) == 0x3AFB5079 && W(m, t - 5) == 0x898E04E5
    requires W(m, t - 4) == 0xE2BA3C2B && W(m, t - 3) == 0x60C0 && W(m, t - 2) == 0x53A37CD
    requires W(m, t - 1) == 0x74458547
    ensures W(m, t + 0) == 0xDA9415ED && W(m, t + 1) == 0x26380A16 && W(m, t + 2) == 0x626383A1
    ensures W(m, t + 3) == 0x4EBF54DE && W(m, t + 4) == 0x3835B44B && W(m, t + 5) == 0xF600
    ensures W(m, t + 6) == 0x1E84C7A3 && W(m, t + 7) == 0x98E04D98
  {
    hide W;
    WordIs(m, t + 0, 0x000060C0, 0xD2E138C4, 0xB131C0F0, 0x8E9A9202, 0xDA9415ED);
    WordIs(m, t + 1, 0x053A37CD, 0x00000F00, 0x16263BC6, 0x00000600, 0x26380A16);
    WordIs(m, t + 2, 0x74458547, 0x3AFB5079, 0x4EBED41E, 0xB131C0F0, 0x626383A1);
    WordIs(m, t + 3, 0xDA9415ED, 0x898E04E5, 0x626380A1, 0x16263BC6, 0x4EBF54DE);
    WordIs(m, t + 4, 0x26380A16, 0xE2BA3C2B, 0x16263806, 0x4EBED41E, 0x3835B44B);
    WordIs(m, t + 5, 0x626383A1, 0x000060C0, 0x000018C0, 0x626380A1, 0x0000F600);
    WordIs(m, t + 6, 0x4EBF54DE, 0x053A37CD, 0xD2E138C4, 0x16263806, 0x1E84C7A3);
    WordIs(m, t + 7, 0x3835B44B, 0x74458547, 0x00000F00, 0x000018C0, 0x98E04D98);
  }

  lemma Words56(m: Block, t: nat)
    requires t == 56
    requires W(m, t - 16) == 0xD2E138C4 && W(m, t - 15) == 0xF00 && W(m, t - 14) == 0x3AFB5079
    requires W(m, t - 13) == 0x898E04E5 && W(m, t - 12) == 0xE2BA3C2B && W(m, t - 11) == 0x60C0
    requires W(m, t - 10) == 0x53A37CD && W(m, t - 9) == 0x74458547 && W(m, t - 8) == 0xDA9415ED
    requires W(m, t - 7) == 0x26380A16 && W(m, t - 6) == 0x626383A1 && W(m, t - 5) == 0x4EBF54DE
    requires W(m, t - 4) == 0x3835B44B && W(m, t - 3) == 0xF600 && W(m, t - 2) == 0x1E84C7A3
    requires W(m, t - 1) == 0x98E04D98
    ensures W(m, t + 0) == 0x651D16A0 && W(m, t + 1) == 0x62658CA1 && W(m, t + 2) == 0x458544D6
    ensures W(m, t + 3) == 0x44584CB7 && W(m, t + 4) == 0x7BA06619 && W(m, t + 5) == 0x6380AEA2
    ensures W(m, t + 6) == 0xAE55269 && W(m, t + 7) == 0x627B49A1
  {
    hide W;
    WordIs(m, t + 0, 0x0000F600, 0xDA9415ED, 0x3AFB5079, 0xD2E138C4, 0x651D16A0);
    WordIs(m, t + 1, 0x1E84C7A3, 0x26380A16, 0x898E04E5, 0x00000F00, 0x62658CA1);
    WordIs(m, t + 2, 0x98E04D98, 0x626383A1, 0xE2BA3C2B, 0x3AFB5079, 0x458544D6);
    WordIs(m, t + 3, 0x651D16A0, 0x4EBF54DE, 0x000060C0, 0x898E04E5, 0x44584CB7);
    WordIs(m, t + 4, 0x62658CA1, 0x3835B44B, 0x053A37CD, 0xE2BA3C2B, 0x7BA06619);
    WordIs(m, t + 5, 0x458544D6, 0x0000F600, 0x74458547, 0x000060C0, 0x6380AEA2);
    WordIs(m, t + 6, 0x44584CB7, 0x1E84C7A3, 0xDA9415ED, 0x053A37CD, 0x0AE55269);
    WordIs(m, t + 7, 0x7BA06619, 0x98E04D98, 0x26380A16, 0x74458547, 0x627B49A1);
  }

  lemma Words64(m: Block, t: nat)
    requires t == 64
    requires W(m, t - 16) == 0xDA9415ED && W(m, t - 15) == 0x26380A16 && W(m, t - 14) == 0x626383A1
    requires W(m, t - 13) == 0x4EBF54DE && W(m, t - 12) == 0x3835B44B && W(m, t - 11) == 0xF600
    requires W(m, t - 10) == 0x1E84C7A3 && W(m, t - 9) == 0x98E04D98 && W(m, t - 8) == 0x651D16A0
    requires W(m, t - 7) == 0x62658CA1 && W(m, t - 6) == 0x458544D6 && W(m, t - 5) == 0x44584CB7
    requires W(m, t - 4) == 0x7BA06619 && W(m, t - 3) == 0x6380AEA2 && W(m, t - 2) == 0xAE55269
    requires W(m, t - 1) == 0x627B49A1
    ensures W(m, t + 0) == 0x7CD45C9D && W(m, t + 1) == 0xF0000 && W(m, t + 2) == 0xFB50753A
    ensures W(m, t + 3) == 0xEC6765E8 && W(m, t + 4) == 0xBA3C2BE2 && W(m, t + 5) == 0x60C000
    ensures W(m, t + 6) == 0x3A37CD05 && W(m, t + 7) == 0x458546F4
  {
    hide W;
    WordIs(m, t + 0, 0x6380AEA2, 0x651D16A0, 0x626383A1, 0xDA9415ED, 0x7CD45C9D);
    WordIs(m, t + 1, 0x0AE55269, 0x62658CA1, 0x4EBF54DE, 0x26380A16, 0x000F0000);
    WordIs(m, t + 2, 0x627B49A1, 0x458544D6, 0x3835B44B, 0x626383A1, 0xFB50753A);
    WordIs(m, t + 3, 0x7CD45C9D, 0x44584CB7, 0x0000F600, 0x4EBF54DE, 0xEC6765E8);
    WordIs(m, t + 4, 0x000F0000, 0x7BA06619, 0x1E84C7A3, 0x3835B44B, 0xBA3C2BE2);
    WordIs(m, t + 5, 0xFB50753A, 0x6380AEA2, 0x98E04D98, 0x0000F600, 0x0060C000);
    WordIs(m, t + 6, 0xEC6765E8, 0x0AE55269, 0x651D16A0, 0x1E84C7A3, 0x3A37CD05);
    WordIs(m, t + 7, 0xBA3C2BE2, 0x627B49A1, 0x62658CA1, 0x98E04D98, 0x458546F4);
  }

  lemma Words72(m: Block, t: nat)
    requires t == 72
    requires W(m, t - 16) == 0x651D16A0 && W(m, t - 15) == 0x62658CA1 && W(m, t - 14) == 0x458544D6
    requires W(m, t - 13) == 0x44584CB7 && W(m, t - 12) == 0x7BA06619 && W(m, t - 11) == 0x6380AEA2
    requires W(m, t - 10) == 0xAE55269 && W(m, t - 9) == 0x627B49A1 && W(m, t - 8) == 0x7CD45C9D
    requires W(m, t - 7) == 0xF0000 && W(m, t - 6) == 0xFB50753A && W(m, t - 5) == 0xEC6765E8
    requires W(m, t - 4) == 0xBA3C2BE2 && W(m, t - 3) == 0x60C000 && W(m, t - 2) == 0x3A37CD05
    requires W(m, t - 1) == 0x458546F4
    ensures W(m, t + 0) == 0xB8599DD6 && W(m, t + 1) == 0x380A1A26 && W(m, t + 2) == 0x1E02203
    ensures W(m, t + 3) == 0xE7CC3456 && W(m, t + 4) == 0xE6E60B69 && W(m, t + 5) == 0xF60A00
    ensures W(m, t + 6) == 0x5795EF4F && W(m, t + 7) == 0x822E0879
  {
    hide W;
    WordIs(m, t + 0, 0x0060C000, 0x7CD45C9D, 0x458544D6, 0x651D16A0, 0xB8599DD6);
    WordIs(m, t + 1, 0x3A37CD05, 0x000F0000, 0x44584CB7, 0x62658CA1, 0x380A1A26);
    WordIs(m, t + 2, 0x458546F4, 0xFB50753A, 0x7BA06619, 0x458544D6, 0x01E02203);
    WordIs(m, t + 3, 0xB8599DD6, 0xEC6765E8, 0x6380AEA2, 0x44584CB7, 0xE7CC3456);
    WordIs(m, t + 4, 0x380A1A26, 0xBA3C2BE2, 0x0AE55269, 0x7BA06619, 0xE6E60B69);
    WordIs(m, t + 5, 0x01E02203, 0x0060C000, 0x627B49A1, 0x6380AEA2, 0x00F60A00);
    WordIs(m, t + 6, 0xE7CC3456, 0x3A37CD05, 0x7CD45C9D, 0x0AE55269, 0x5795EF4F);
    WordIs(m, t + 7, 0xE6E60B69, 0x458546F4, 0x000F0000, 0x627B49A1, 0x822E0879);
  }

  lemma Rounds0(m: Block, t: nat)
    requires t == 0
    requires Rounds(INITIAL, m, t) == Hash(0x67452301, 0xEFCDAB89, 0x98BADCFE, 0x10325476, 0xC3D2E1F0)
    requires W(m, t + 0) == 0x61626380 && W(m, t + 1) == 0x0 && W(m, t + 2) == 0x0
    requires W(m, t + 3) == 0x0
    ensures Rounds(INITIAL, m, t + 4) == Hash(0xCDD8E11B, 0xA1390F08, 0x626414DB, 0xC045BF0C, 0x59D148C0)
  {
    hide W, Rounds, Rotl5, Rotl30, F;
    PartsAre(t + 0, 0x67452301, 0xEFCDAB89, 0x98BADCFE, 0x10325476, 0xE8A4602C, 0x98BADCFE, 0x7BF36AE2);
    RoundWords(INITIAL, m, t + 0, Hash(0x67452301, 0xEFCDAB89, 0x98BADCFE, 0x10325476, 0xC3D2E1F0),
               0x61626380, 0xE8A4602C, 0x98BADCFE, 0x7BF36AE2, 0x0116FC33);
    PartsAre(t + 1, 0x0116FC33, 0x67452301, 0x7BF36AE2, 0x98BADCFE, 0x22DF8660, 0xFBFBFEFE, 0x59D148C0);
    RoundWords(INITIAL, m, t + 1, Hash(0x0116FC33, 0x67452301, 0x7BF36AE2, 0x98BADCFE, 0x10325476),
               0x00000000, 0x22DF8660, 0xFBFBFEFE, 0x59D148C0, 0x8990536D);
    PartsAre(t + 2, 0x8990536D, 0x0116FC33, 0x59D148C0, 0x7BF36AE2, 0x320A6DB1, 0x7BF14AC0, 0xC045BF0C);
    RoundWords(INITIAL, m, t + 2, Hash(0x8990536D, 0x0116FC33, 0x59D148C0, 0x7BF36AE2, 0x98BADCFE),
               0x00000000, 0x320A6DB1, 0x7BF14AC0, 0xC045BF0C, 0xA1390F08);
    PartsAre(t + 3, 0xA1390F08, 0x8990536D, 0xC045BF0C, 0x59D148C0, 0x2721E114, 0xD0411B8C, 0x626414DB);
    RoundWords(INITIAL, m, t + 3, Hash(0xA1390F08, 0x8990536D, 0xC045BF0C, 0x59D148C0, 0x7BF36AE2),
               0x00000000, 0x2721E114, 0xD0411B8C, 0x626414DB, 0xCDD8E11B);
  }

  lemma Rounds4(m: Block, t: nat)
    requires t == 4
    requires Rounds(INITIAL, m, t) == Hash(0xCDD8E11B, 0xA1390F08, 0x626414DB, 0xC045BF0C, 0x59D148C0)
    requires W(m, t + 0) == 0x0 && W(m, t + 1) == 0x0 && W(m, t + 2) == 0x0
    requires W(m, t + 3) == 0x0
    ensures Rounds(INITIAL, m, t + 4) == Hash(0x9E8C07D4, 0x993E30C1, 0x0FF1F290, 0xB3F52677, 0xF3763846)
  {
    hide W, Rounds, Rotl5, Rotl30, F;
    PartsAre(t + 0, 0xCDD8E11B, 0xA1390F08, 0x626414DB, 0xC045BF0C, 0xBB1C2379, 0x6064B40C, 0x284E43C2);
    RoundWords(INITIAL, m, t + 0, Hash(0xCDD8E11B, 0xA1390F08, 0x626414DB, 0xC045BF0C, 0x59D148C0),
               0x00000000, 0xBB1C2379, 0x6064B40C, 0x284E43C2, 0xCFD499DE);
    PartsAre(t + 1, 0xCFD499DE, 0xCDD8E11B, 0x284E43C2, 0x626414DB, 0xFA933BD9, 0x2A6C55C2, 0xF3763846);
    RoundWords(INITIAL, m, t + 1, Hash(0xCFD499DE, 0xCDD8E11B, 0x284E43C2, 0x626414DB, 0xC045BF0C),
               0x00000000, 0xFA933BD9, 0x2A6C55C2, 0xF3763846, 0x3FC7CA40);
    PartsAre(t + 2, 0x3FC7CA40, 0xCFD499DE, 0xF3763846, 0x284E43C2, 0xF8F94807, 0xE35E5A46, 0xB3F52677);
    RoundWords(INITIAL, m, t + 2, Hash(0x3FC7CA40, 0xCFD499DE, 0xF3763846, 0x284E43C2, 0x626414DB),
               0x00000000, 0xF8F94807, 0xE35E5A46, 0xB3F52677, 0x993E30C1);
    PartsAre(t + 3, 0x993E30C1, 0x3FC7CA40, 0xB3F52677, 0xF3763846, 0x27C61833, 0xF3F53246, 0x0FF1F290);
    RoundWords(INITIAL, m, t + 3, Hash(0x993E30C1, 0x3FC7CA40, 0xB3F52677, 0xF3763846, 0x284E43C2),
               0x00000000, 0x27C61833, 0xF3F53246, 0x0FF1F290, 0x9E8C07D4);
  }

  lemma Rounds8(m: Block, t: nat)
    requires t == 8
    requires Rounds(INITIAL, m, t) == Hash(0x9E8C07D4, 0x993E30C1, 0x0FF1F290, 0xB3F52677, 0xF3763846)
    requires W(m, t + 0) == 0x0 && W(m, t + 1) == 0x0 && W(m, t + 2) == 0x0
    requires W(m, t + 3) == 0x0
    ensures Rounds(INITIAL, m, t + 4) == Hash(0x63188FE4, 0xFBDA9E89, 0x60D47E4A, 0x12DAB8CA, 0x27A301F5)
  {
    hide W, Rounds, Rotl5, Rotl30, F;
    PartsAre(t + 0, 0x9E8C07D4, 0x993E30C1, 0x0FF1F290, 0xB3F52677, 0xD180FA93, 0x2BF136B6, 0x664F8C30);
    RoundWords(INITIAL, m, t + 0, Hash(0x9E8C07D4, 0x993E30C1, 0x0FF1F290, 0xB3F52677, 0xF3763846),
               0x00000000, 0xD180FA93, 0x2BF136B6, 0x664F8C30, 0x4B6AE328);
    PartsAre(t + 1, 0x4B6AE328, 0x9E8C07D4, 0x664F8C30, 0x0FF1F290, 0x6D5C6509, 0x077DF410, 0x27A301F5);
    RoundWords(INITIAL, m, t + 1, Hash(0x4B6AE328, 0x9E8C07D4, 0x664F8C30, 0x0FF1F290, 0xB3F52677),
               0x00000000, 0x6D5C6509, 0x077DF410, 0x27A301F5, 0x8351F929);
    PartsAre(t + 2, 0x8351F929, 0x4B6AE328, 0x27A301F5, 0x664F8C30, 0x6A3F2530, 0x27270D30, 0x12DAB8CA);
    RoundWords(INITIAL, m, t + 2, Hash(0x8351F929, 0x4B6AE328, 0x27A301F5, 0x664F8C30, 0x0FF1F290),
               0x00000000, 0x6A3F2530, 0x27270D30, 0x12DAB8CA, 0xFBDA9E89);
    PartsAre(t + 3, 0xFBDA9E89, 0x8351F929, 0x12DAB8CA, 0x27A301F5, 0x7B53D13F, 0x26F2B8DC, 0x60D47E4A);
    RoundWords(INITIAL, m, t + 3, Hash(0xFBDA9E89, 0x8351F929, 0x12DAB8CA, 0x27A301F5, 0x664F8C30),
               0x00000000, 0x7B53D13F, 0x26F2B8DC, 0x60D47E4A, 0x63188FE4);
  }

  lemma Rounds12(m: Block, t: nat)
    requires t == 12
    requires Rounds(INITIAL, m, t) == Hash(0x63188FE4, 0xFBDA9E89, 0x60D47E4A, 0x12DAB8CA, 0x27A301F5)
    requires W(m, t + 0) == 0x0 && W(m, t + 1) == 0x0 && W(m, t + 2) == 0x0
    requires W(m, t + 3) == 0x18
    ensures Rounds(INITIAL, m, t + 4) == Hash(0x20BDD62F, 0x196BEE77, 0x644A3DA5, 0x1181ED99, 0x18C623F9)
  {
    hide W, Rounds, Rotl5, Rotl30, F;
    PartsAre(t + 0, 0x63188FE4, 0xFBDA9E89, 0x60D47E4A, 0x12DAB8CA, 0x6311FC8C, 0x60D03E4A, 0x7EF6A7A2);
    RoundWords(INITIAL, m, t + 0, Hash(0x63188FE4, 0xFBDA9E89, 0x60D47E4A, 0x12DAB8CA, 0x27A301F5),
               0x00000000, 0x6311FC8C, 0x60D03E4A, 0x7EF6A7A2, 0x4607B664);
    PartsAre(t + 1, 0x4607B664, 0x63188FE4, 0x7EF6A7A2, 0x60D47E4A, 0xC0F6CC88, 0x62D4F7AA, 0x18C623F9);
    RoundWords(INITIAL, m, t + 1, Hash(0x4607B664, 0x63188FE4, 0x7EF6A7A2, 0x60D47E4A, 0x12DAB8CA),
               0x00000000, 0xC0F6CC88, 0x62D4F7AA, 0x18C623F9, 0x9128F695);
    PartsAre(t + 2, 0x9128F695, 0x4607B664, 0x18C623F9, 0x7EF6A7A2, 0x251ED2B2, 0x38F623E2, 0x1181ED99);
    RoundWords(INITIAL, m, t + 2, Hash(0x9128F695, 0x4607B664, 0x18C623F9, 0x7EF6A7A2, 0x60D47E4A),
               0x00000000, 0x251ED2B2, 0x38F623E2, 0x1181ED99, 0x196BEE77);
    PartsAre(t + 3, 0x196BEE77, 0x9128F695, 0x1181ED99, 0x18C623F9, 0x2D7DCEE3, 0x19C6E5F9, 0x644A3DA5);
    RoundWords(INITIAL, m, t + 3, Hash(0x196BEE77, 0x9128F695, 0x1181ED99, 0x18C623F9, 0x7EF6A7A2),
               0x00000018, 0x2D7DCEE3, 0x19C6E5F9, 0x644A3DA5, 0x20BDD62F);
  }

  lemma Rounds16(m: Block, t: nat)
    requires t == 16
    requires Rounds(INITIAL, m, t) == Hash(0x20BDD62F, 0x196BEE77, 0x644A3DA5, 0x1181ED99, 0x18C623F9)
    requires W(m, t + 0) == 0xC2C4C700 && W(m, t + 1) == 0x0 && W(m, t + 2) == 0x30
    requires W(m, t + 3) == 0x85898E01
    ensures Rounds(INITIAL, m, t + 4) == Hash(0xFD9E1D7D, 0xDC64901D, 0x20AA99CA, 0xD3A49608, 0xC82F758B)
  {
    hide W, Rounds, Rotl5, Rotl30, F;
    PartsAre(t + 0, 0x20BDD62F, 0x196BEE77, 0x644A3DA5, 0x1181ED99, 0x17BAC5E4, 0x00CA2DAD, 0xC65AFB9D);
    RoundWords(INITIAL, m, t + 0, Hash(0x20BDD62F, 0x196BEE77, 0x644A3DA5, 0x1181ED99, 0x18C623F9),
               0xC2C4C700, 0x17BAC5E4, 0x00CA2DAD, 0xC65AFB9D, 0x4E925823);
    PartsAre(t + 1, 0x4E925823, 0x20BDD62F, 0xC65AFB9D, 0x644A3DA5, 0xD24B0469, 0x445AFB8D, 0xC82F758B);
    RoundWords(INITIAL, m, t + 1, Hash(0x4E925823, 0x20BDD62F, 0xC65AFB9D, 0x644A3DA5, 0x1181ED99),
               0x00000000, 0xD24B0469, 0x445AFB8D, 0xC82F758B, 0x82AA6728);
    PartsAre(t + 2, 0x82AA6728, 0x4E925823, 0xC82F758B, 0xC65AFB9D, 0x554CE510, 0xC84AF39F, 0xD3A49608);
    RoundWords(INITIAL, m, t + 2, Hash(0x82AA6728, 0x4E925823, 0xC82F758B, 0xC65AFB9D, 0x644A3DA5),
               0x00000030, 0x554CE510, 0xC84AF39F, 0xD3A49608, 0xDC64901D);
    PartsAre(t + 3, 0xDC64901D, 0x82AA6728, 0xD3A49608, 0xC82F758B, 0x8C9203BB, 0xCAA5168B, 0x20AA99CA);
    RoundWords(INITIAL, m, t + 3, Hash(0xDC64901D, 0x82AA6728, 0xD3A49608, 0xC82F758B, 0xC65AFB9D),
               0x85898E01, 0x8C9203BB, 0xCAA5168B, 0x20AA99CA, 0xFD9E1D7D);
  }

  lemma Rounds20(m: Block, t: nat)
    requires t == 20
    requires Rounds(INITIAL, m, t) == Hash(0xFD9E1D7D, 0xDC64901D, 0x20AA99CA, 0xD3A49608, 0xC82F758B)
    requires W(m, t + 0) == 0x0 && W(m, t + 1) == 0x60 && W(m, t + 2) == 0xB131C03
    requires W(m, t + 3) == 0x30
    ensures Rounds(INITIAL, m, t + 4) == Hash(0xD541F12D, 0x21283486, 0x0CE88EFF, 0x868DEC32, 0x7F67875F)
  {
    hide W, Rounds, Rotl5, Rotl30, F;
    PartsAre(t + 0, 0xFD9E1D7D, 0xDC64901D, 0x20AA99CA, 0xD3A49608, 0xB3C3AFBF, 0x2F6A9FDF, 0x77192407);
    RoundWords(INITIAL, m, t + 0, Hash(0xFD9E1D7D, 0xDC64901D, 0x20AA99CA, 0xD3A49608, 0xC82F758B),
               0x00000000, 0xB3C3AFBF, 0x2F6A9FDF, 0x77192407, 0x1A37B0CA);
    PartsAre(t + 1, 0x1A37B0CA, 0xFD9E1D7D, 0x77192407, 0x20AA99CA, 0x46F61943, 0xAA2DA0B0, 0x7F67875F);
    RoundWords(INITIAL, m, t + 1, Hash(0x1A37B0CA, 0xFD9E1D7D, 0x77192407, 0x20AA99CA, 0xD3A49608),
               0x00000060, 0x46F61943, 0xAA2DA0B0, 0x7F67875F, 0x33A23BFC);
    PartsAre(t + 2, 0x33A23BFC, 0x1A37B0CA, 0x7F67875F, 0x77192407, 0x74477F86, 0x12491392, 0x868DEC32);
    RoundWords(INITIAL, m, t + 2, Hash(0x33A23BFC, 0x1A37B0CA, 0x7F67875F, 0x77192407, 0x20AA99CA),
               0x0B131C03, 0x74477F86, 0x12491392, 0x868DEC32, 0x21283486);
    PartsAre(t + 3, 0x21283486, 0x33A23BFC, 0x868DEC32, 0x7F67875F, 0x250690C4, 0xCA485091, 0x0CE88EFF);
    RoundWords(INITIAL, m, t + 3, Hash(0x21283486, 0x33A23BFC, 0x868DEC32, 0x7F67875F, 0x77192407),
               0x00000030, 0x250690C4, 0xCA485091, 0x0CE88EFF, 0xD541F12D);
  }

  lemma Rounds24(m: Block, t: nat)
    requires t == 24
    requires Rounds(INITIAL, m, t) == Hash(0xD541F12D, 0x21283486, 0x0CE88EFF, 0x868DEC32, 0x7F67875F)
    requires W(m, t + 0) == 0x85898EC1 && W(m, t + 1) == 0x16263806 && W(m, t + 2) == 0x0
    requires W(m, t + 3) == 0x180
    ensures Rounds(INITIAL, m, t + 4) == Hash(0x4AA84D97, 0xBE35FBD5, 0x12104EE9, 0xB1D59F71, 0x75507C4B)
  {
    hide W, Rounds, Rotl5, Rotl30, F;
    PartsAre(t + 0, 0xD541F12D, 0x21283486, 0x0CE88EFF, 0x868DEC32, 0xA83E25BA, 0xAB4D564B, 0x884A0D21);
    RoundWords(INITIAL, m, t + 0, Hash(0xD541F12D, 0x21283486, 0x0CE88EFF, 0x868DEC32, 0x7F67875F),
               0x85898EC1, 0xA83E25BA, 0xAB4D564B, 0x884A0D21, 0xC7567DC6);
    PartsAre(t + 1, 0xC7567DC6, 0xD541F12D, 0x884A0D21, 0x0CE88EFF, 0xEACFB8D8, 0x51E372F3, 0x75507C4B);
    RoundWords(INITIAL, m, t + 1, Hash(0xC7567DC6, 0xD541F12D, 0x884A0D21, 0x0CE88EFF, 0x868DEC32),
               0x16263806, 0xEACFB8D8, 0x51E372F3, 0x75507C4B, 0x48413BA4);
    PartsAre(t + 2, 0x48413BA4, 0xC7567DC6, 0x75507C4B, 0x884A0D21, 0x08277489, 0x3A4C0CAC, 0xB1D59F71);
    RoundWords(INITIAL, m, t + 2, Hash(0x48413BA4, 0xC7567DC6, 0x75507C4B, 0x884A0D21, 0x0CE88EFF),
               0x00000000, 0x08277489, 0x3A4C0CAC, 0xB1D59F71, 0xBE35FBD5);
    PartsAre(t + 3, 0xBE35FBD5, 0x48413BA4, 0xB1D59F71, 0x75507C4B, 0xC6BF7AB7, 0x8CC4D89E, 0x12104EE9);
    RoundWords(INITIAL, m, t + 3, Hash(0xBE35FBD5, 0x48413BA4, 0xB1D59F71, 0x75507C4B, 0x884A0D21),
               0x00000180, 0xC6BF7AB7, 0x8CC4D89E, 0x12104EE9, 0x4AA84D97);
  }

  lemma Rounds28(m: Block, t: nat)
    requires t == 28
    requires Rounds(INITIAL, m, t) == Hash(0x4AA84D97, 0xBE35FBD5, 0x12104EE9, 0xB1D59F71, 0x75507C4B)
    requires W(m, t + 0) == 0x2C4C700C && W(m, t + 1) == 0xF0 && W(m, t + 2) == 0x93AFB507
    requires W(m, t + 3) == 0x5898E048
    ensures Rounds(INITIAL, m, t + 4) == Hash(0x3B845D33, 0x1267B407, 0x717EEBD7, 0xA0DC2D4B, 0xD2AA1365)
  {
    hide W, Rounds, Rotl5, Rotl30, F;
    PartsAre(t + 0, 0x4AA84D97, 0xBE35FBD5, 0x12104EE9, 0xB1D59F71, 0x5509B2E9, 0x1DF02A4D, 0x6F8D7EF5);
    RoundWords(INITIAL, m, t + 0, Hash(0x4AA84D97, 0xBE35FBD5, 0x12104EE9, 0xB1D59F71, 0x75507C4B),
               0x2C4C700C, 0x5509B2E9, 0x1DF02A4D, 0x6F8D7EF5, 0x8370B52E);
    PartsAre(t + 1, 0x8370B52E, 0x4AA84D97, 0x6F8D7EF5, 0x12104EE9, 0x6E16A5D0, 0x37357D8B, 0xD2AA1365);
    RoundWords(INITIAL, m, t + 1, Hash(0x8370B52E, 0x4AA84D97, 0x6F8D7EF5, 0x12104EE9, 0xB1D59F71),
               0x000000F0, 0x6E16A5D0, 0x37357D8B, 0xD2AA1365, 0xC5FBAF5D);
    PartsAre(t + 2, 0xC5FBAF5D, 0x8370B52E, 0xD2AA1365, 0x6F8D7EF5, 0xBF75EBB8, 0x3E57D8BE, 0xA0DC2D4B);
    RoundWords(INITIAL, m, t + 2, Hash(0xC5FBAF5D, 0x8370B52E, 0xD2AA1365, 0x6F8D7EF5, 0x12104EE9),
               0x93AFB507, 0xBF75EBB8, 0x3E57D8BE, 0xA0DC2D4B, 0x1267B407);
    PartsAre(t + 3, 0x1267B407, 0xC5FBAF5D, 0xA0DC2D4B, 0xD2AA1365, 0x4CF680E2, 0xB78D9173, 0x717EEBD7);
    RoundWords(INITIAL, m, t + 3, Hash(0x1267B407, 0xC5FBAF5D, 0xA0DC2D4B, 0xD2AA1365, 0x6F8D7EF5),
               0x5898E048, 0x4CF680E2, 0xB78D9173, 0x717EEBD7, 0x3B845D33);
  }

  lemma Rounds32(m: Block, t: nat)
    requires t == 32
    requires Rounds(INITIAL, m, t) == Hash(0x3B845D33, 0x1267B407, 0x717EEBD7, 0xA0DC2D4B, 0xD2AA1365)
    requires W(m, t + 0) == 0x8E9A9202 && W(m, t + 1) == 0x600 && W(m, t + 2) == 0xB131C0F0
    requires W(m, t + 3) == 0x16263BC6
    ensures Rounds(INITIAL, m, t + 4) == Hash(0xDCBBB0CB, 0x21796AD4, 0x4B03AF04, 0x811BEA82, 0xCEE1174C)
  {
    hide W, Rounds, Rotl5, Rotl30, F;
    PartsAre(t + 0, 0x3B845D33, 0x1267B407, 0x717EEBD7, 0xA0DC2D4B, 0x708BA667, 0xC3C5729B, 0xC499ED01);
    RoundWords(INITIAL, m, t + 0, Hash(0x3B845D33, 0x1267B407, 0x717EEBD7, 0xA0DC2D4B, 0xD2AA1365),
               0x8E9A9202, 0x708BA667, 0xC3C5729B, 0xC499ED01, 0x046FAA0A);
    PartsAre(t + 1, 0x046FAA0A, 0x3B845D33, 0xC499ED01, 0x717EEBD7, 0x8DF54140, 0x8E635BE5, 0xCEE1174C);
    RoundWords(INITIAL, m, t + 1, Hash(0x046FAA0A, 0x3B845D33, 0xC499ED01, 0x717EEBD7, 0xA0DC2D4B),
               0x00000600, 0x8DF54140, 0x8E635BE5, 0xCEE1174C, 0x2C0EBC11);
    PartsAre(t + 2, 0x2C0EBC11, 0x046FAA0A, 0xCEE1174C, 0xC499ED01, 0x81D78225, 0x0E175047, 0x811BEA82);
    RoundWords(INITIAL, m, t + 2, Hash(0x2C0EBC11, 0x046FAA0A, 0xCEE1174C, 0xC499ED01, 0x717EEBD7),
               0xB131C0F0, 0x81D78225, 0x0E175047, 0x811BEA82, 0x21796AD4);
    PartsAre(t + 3, 0x21796AD4, 0x2C0EBC11, 0x811BEA82, 0xCEE1174C, 0x2F2D5A84, 0x63F441DF, 0x4B03AF04);
    RoundWords(INITIAL, m, t + 3, Hash(0x21796AD4, 0x2C0EBC11, 0x811BEA82, 0xCEE1174C, 0xC499ED01),
               0x16263BC6, 0x2F2D5A84, 0x63F441DF, 0x4B03AF04, 0xDCBBB0CB);
  }

  lemma Rounds36(m: Block, t: nat)
    requires t == 36
    requires Rounds(INITIAL, m, t) == Hash(0xDCBBB0CB, 0x21796AD4, 0x4B03AF04, 0x811BEA82, 0xCEE1174C)
    requires W(m, t + 0) == 0x4EBED41E && W(m, t + 1) == 0x626380A1 && W(m, t + 2) == 0x16263806
    requires W(m, t + 3) == 0x18C0
    ensures Rounds(INITIAL, m, t + 4) == Hash(0x32DE1CBA, 0x4C986405, 0xF718E5CF, 0x03D447F6, 0xF72EEC32)
  {
    hide W, Rounds, Rotl5, Rotl30, F;
    PartsAre(t + 0, 0xDCBBB0CB, 0x21796AD4, 0x4B03AF04, 0x811BEA82, 0x9776197B, 0xEB612F52, 0x085E5AB5);
    RoundWords(INITIAL, m, t + 0, Hash(0xDCBBB0CB, 0x21796AD4, 0x4B03AF04, 0x811BEA82, 0xCEE1174C),
               0x4EBED41E, 0x9776197B, 0xEB612F52, 0x085E5AB5, 0x0F511FD8);
    PartsAre(t + 1, 0x0F511FD8, 0xDCBBB0CB, 0x085E5AB5, 0x4B03AF04, 0xEA23FB01, 0x9FE6457A, 0xF72EEC32);
    RoundWords(INITIAL, m, t + 1, Hash(0x0F511FD8, 0xDCBBB0CB, 0x085E5AB5, 0x4B03AF04, 0x811BEA82),
               0x626380A1, 0xEA23FB01, 0x9FE6457A, 0xF72EEC32, 0xDC63973F);
    PartsAre(t + 2, 0xDC63973F, 0x0F511FD8, 0xF72EEC32, 0x085E5AB5, 0x8C72E7FB, 0xF021A95F, 0x03D447F6);
    RoundWords(INITIAL, m, t + 2, Hash(0xDC63973F, 0x0F511FD8, 0xF72EEC32, 0x085E5AB5, 0x4B03AF04),
               0x16263806, 0x8C72E7FB, 0xF021A95F, 0x03D447F6, 0x4C986405);
    PartsAre(t + 3, 0x4C986405, 0xDC63973F, 0x03D447F6, 0xF72EEC32, 0x930C80A9, 0x28993CFB, 0xF718E5CF);
    RoundWords(INITIAL, m, t + 3, Hash(0x4C986405, 0xDC63973F, 0x03D447F6, 0xF72EEC32, 0x085E5AB5),
               0x000018C0, 0x930C80A9, 0x28993CFB, 0xF718E5CF, 0x32DE1CBA);
  }

  lemma Rounds40(m: Block, t: nat)
    requires t == 40
    requires Rounds(INITIAL, m, t) == Hash(0x32DE1CBA, 0x4C986405, 0xF718E5CF, 0x03D447F6, 0xF72EEC32)
    requires W(m, t + 0) == 0xD2E138C4 && W(m, t + 1) == 0xF00 && W(m, t + 2) == 0x3AFB5079
    requires W(m, t + 3) == 0x898E04E5
    ensures Rounds(INITIAL, m, t + 4) == Hash(0xEE1B1AAF, 0x7F193DC5, 0x25C28357, 0xFF21F7B7, 0x8CB7872E)
  {
    hide W, Rounds, Rotl5, Rotl30, F;
    PartsAre(t + 0, 0x32DE1CBA, 0x4C986405, 0xF718E5CF, 0x03D447F6, 0x5BC39746, 0x479865C7, 0x53261901);
    RoundWords(INITIAL, m, t + 0, Hash(0x32DE1CBA, 0x4C986405, 0xF718E5CF, 0x03D447F6, 0xF72EEC32),
               0xD2E138C4, 0x5BC39746, 0x479865C7, 0x53261901, 0xFC87DEDF);
    PartsAre(t + 1, 0xFC87DEDF, 0x32DE1CBA, 0x53261901, 0xF718E5CF, 0x90FBDBFF, 0x731E1D8B, 0x8CB7872E);
    RoundWords(INITIAL, m, t + 1, Hash(0xFC87DEDF, 0x32DE1CBA, 0x53261901, 0xF718E5CF, 0x03D447F6),
               0x00000F00, 0x90FBDBFF, 0x731E1D8B, 0x8CB7872E, 0x970A0D5C);
    PartsAre(t + 2, 0x970A0D5C, 0xFC87DEDF, 0x8CB7872E, 0x53261901, 0xE141AB92, 0xDCA79F0F, 0xFF21F7B7);
    RoundWords(INITIAL, m, t + 2, Hash(0x970A0D5C, 0xFC87DEDF, 0x8CB7872E, 0x53261901, 0xF718E5CF),
               0x3AFB5079, 0xE141AB92, 0xDCA79F0F, 0xFF21F7B7, 0x7F193DC5);
    PartsAre(t + 3, 0x7F193DC5, 0x970A0D5C, 0xFF21F7B7, 0x8CB7872E, 0xE327B8AF, 0x9F23873E, 0x25C28357);
    RoundWords(INITIAL, m, t + 3, Hash(0x7F193DC5, 0x970A0D5C, 0xFF21F7B7, 0x8CB7872E, 0x53261901),
               0x898E04E5, 0xE327B8AF, 0x9F23873E, 0x25C28357, 0xEE1B1AAF);
  }

  lemma Rounds44(m: Block, t: nat)
    requires t == 44
    requires Rounds(INITIAL, m, t) == Hash(0xEE1B1AAF, 0x7F193DC5, 0x25C28357, 0xFF21F7B7, 0x8CB7872E)
    requires W(m, t + 0) == 0xE2BA3C2B && W(m, t + 1) == 0x60C0 && W(m, t + 2) == 0x53A37CD
    requires W(m, t + 3) == 0x74458547
    ensures Rounds(INITIAL, m, t + 4) == Hash(0xBEAD02CA, 0xA01B846C, 0x8714787C, 0x503CA382, 0xFB86C6AB)
  {
    hide W, Rounds, Rotl5, Rotl30, F;
    PartsAre(t + 0, 0xEE1B1AAF, 0x7F193DC5, 0x25C28357, 0xFF21F7B7, 0xC36355FD, 0x7F01B7D7, 0x5FC64F71);
    RoundWords(INITIAL, m, t + 0, Hash(0xEE1B1AAF, 0x7F193DC5, 0x25C28357, 0xFF21F7B7, 0x8CB7872E),
               0xE2BA3C2B, 0xC36355FD, 0x7F01B7D7, 0x5FC64F71, 0x40F28E09);
    PartsAre(t + 1, 0x40F28E09, 0xEE1B1AAF, 0x5FC64F71, 0x25C28357, 0x1E51C128, 0x6FC20B77, 0xFB86C6AB);
    RoundWords(INITIAL, m, t + 1, Hash(0x40F28E09, 0xEE1B1AAF, 0x5FC64F71, 0x25C28357, 0xFF21F7B7),
               0x000060C0, 0x1E51C128, 0x6FC20B77, 0xFB86C6AB, 0x1C51E1F2);
    PartsAre(t + 2, 0x1C51E1F2, 0x40F28E09, 0xFB86C6AB, 0x5FC64F71, 0x8A3C3E43, 0x5BC6CE29, 0x503CA382);
    RoundWords(INITIAL, m, t + 2, Hash(0x1C51E1F2, 0x40F28E09, 0xFB86C6AB, 0x5FC64F71, 0x25C28357),
               0x053A37CD, 0x8A3C3E43, 0x5BC6CE29, 0x503CA382, 0xA01B846C);
    PartsAre(t + 3, 0xA01B846C, 0x1C51E1F2, 0x503CA382, 0xFB86C6AB, 0x03708D94, 0x5814E3A2, 0x8714787C);
    RoundWords(INITIAL, m, t + 3, Hash(0xA01B846C, 0x1C51E1F2, 0x503CA382, 0xFB86C6AB, 0x5FC64F71),
               0x74458547, 0x03708D94, 0x5814E3A2, 0x8714787C, 0xBEAD02CA);
  }

  lemma Rounds48(m: Block, t: nat)
    requires t == 48
    requires Rounds(INITIAL, m, t) == Hash(0xBEAD02CA, 0xA01B846C, 0x8714787C, 0x503CA382, 0xFB86C6AB)
    requires W(m, t + 0) == 0xDA9415ED && W(m, t + 1) == 0x26380A16 && W(m, t + 2) == 0x626383A1
    requires W(m, t + 3) == 0x4EBF54DE
    ensures Rounds(INITIAL, m, t + 4) == Hash(0x3847AD66, 0x641DB2CE, 0x4481CC71, 0xEEBCE4CD, 0xAFAB40B2)
  {
    hide W, Rounds, Rotl5, Rotl30, F;
    PartsAre(t + 0, 0xBEAD02CA, 0xA01B846C, 0x8714787C, 0x503CA382, 0xD5A05957, 0x801CA06C, 0x2806E11B);
    RoundWords(INITIAL, m, t + 0, Hash(0xBEAD02CA, 0xA01B846C, 0x8714787C, 0x503CA382, 0xFB86C6AB),
               0xDA9415ED, 0xD5A05957, 0x801CA06C, 0x2806E11B, 0xBAF39337);
    PartsAre(t + 1, 0xBAF39337, 0xBEAD02CA, 0x2806E11B, 0x8714787C, 0x5E7266F7, 0xAE04605A, 0xAFAB40B2);
    RoundWords(INITIAL, m, t + 1, Hash(0xBAF39337, 0xBEAD02CA, 0x2806E11B, 0x8714787C, 0x503CA382),
               0x26380A16, 0x5E7266F7, 0xAE04605A, 0xAFAB40B2, 0x120731C5);
    PartsAre(t + 2, 0x120731C5, 0xBAF39337, 0xAFAB40B2, 0x2806E11B, 0x40E638A2, 0xAAA3C133, 0xEEBCE4CD);
    RoundWords(INITIAL, m, t + 2, Hash(0x120731C5, 0xBAF39337, 0xAFAB40B2, 0x2806E11B, 0x8714787C),
               0x626383A1, 0x40E638A2, 0xAAA3C133, 0xEEBCE4CD, 0x641DB2CE);
    PartsAre(t + 3, 0x641DB2CE, 0x120731C5, 0xEEBCE4CD, 0xAFAB40B2, 0x83B659CC, 0xAEAF60C5, 0x4481CC71);
    RoundWords(INITIAL, m, t + 3, Hash(0x641DB2CE, 0x120731C5, 0xEEBCE4CD, 0xAFAB40B2, 0x2806E11B),
               0x4EBF54DE, 0x83B659CC, 0xAEAF60C5, 0x4481CC71, 0x3847AD66);
  }

  lemma Rounds52(m: Block, t: nat)
    requires t == 52
    requires Rounds(INITIAL, m, t) == Hash(0x3847AD66, 0x641DB2CE, 0x4481CC71, 0xEEBCE4CD, 0xAFAB40B2)
    requires W(m, t + 0) == 0x3835B44B && W(m, t + 1) == 0xF600 && W(m, t + 2) == 0x1E84C7A3
    requires W(m, t + 3) == 0x98E04D98
    ensures Rounds(INITIAL, m, t + 4) == Hash(0x5E6456AF, 0x7B71F76D, 0x09FA7C76, 0x792410DB, 0x8E11EB59)
  {
    hide W, Rounds, Rotl5, Rotl30, F;
    PartsAre(t + 0, 0x3847AD66, 0x641DB2CE, 0x4481CC71, 0xEEBCE4CD, 0x08F5ACC7, 0x649DE4CD, 0x99076CB3);
    RoundWords(INITIAL, m, t + 0, Hash(0x3847AD66, 0x641DB2CE, 0x4481CC71, 0xEEBCE4CD, 0xAFAB40B2),
               0x3835B44B, 0x08F5ACC7, 0x649DE4CD, 0x99076CB3, 0xE490436D);
    PartsAre(t + 1, 0xE490436D, 0x3847AD66, 0x99076CB3, 0x4481CC71, 0x92086DBC, 0x1807EC73, 0x8E11EB59);
    RoundWords(INITIAL, m, t + 1, Hash(0xE490436D, 0x3847AD66, 0x99076CB3, 0x4481CC71, 0xEEBCE4CD),
               0x0000F600, 0x92086DBC, 0x1807EC73, 0x8E11EB59, 0x27E9F1D8);
    PartsAre(t + 2, 0x27E9F1D8, 0xE490436D, 0x8E11EB59, 0x99076CB3, 0xFD3E3B04, 0x8C116B79, 0x792410DB);
    RoundWords(INITIAL, m, t + 2, Hash(0x27E9F1D8, 0xE490436D, 0x8E11EB59, 0x99076CB3, 0x4481CC71),
               0x1E84C7A3, 0xFD3E3B04, 0x8C116B79, 0x792410DB, 0x7B71F76D);
    PartsAre(t + 3, 0x7B71F76D, 0x27E9F1D8, 0x792410DB, 0x8E11EB59, 0x6E3EEDAF, 0x2F21F1D9, 0x09FA7C76);
    RoundWords(INITIAL, m, t + 3, Hash(0x7B71F76D, 0x27E9F1D8, 0x792410DB, 0x8E11EB59, 0x99076CB3),
               0x98E04D98, 0x6E3EEDAF, 0x2F21F1D9, 0x09FA7C76, 0x5E6456AF);
  }

  lemma Rounds56(m: Block, t: nat)
    requires t == 56
    requires Rounds(INITIAL, m, t) == Hash(0x5E6456AF, 0x7B71F76D, 0x09FA7C76, 0x792410DB, 0x8E11EB59)
    requires W(m, t + 0) == 0x651D16A0 && W(m, t + 1) == 0x62658CA1 && W(m, t + 2) == 0x458544D6
    requires W(m, t + 3) == 0x44584CB7
    ensures Rounds(INITIAL, m, t + 4) == Hash(0x3F52DE5A, 0x09D785FD, 0x3498BFD4, 0xF211824F, 0xD79915AB)
  {
    hide W, Rounds, Rotl5, Rotl30, F;
    PartsAre(t + 0, 0x5E6456AF, 0x7B71F76D, 0x09FA7C76, 0x792410DB, 0xCC8AD5EB, 0x7970747F, 0x5EDC7DDB);
    RoundWords(INITIAL, m, t + 0, Hash(0x5E6456AF, 0x7B71F76D, 0x09FA7C76, 0x792410DB, 0x8E11EB59),
               0x651D16A0, 0xCC8AD5EB, 0x7970747F, 0x5EDC7DDB, 0xC846093F);
    PartsAre(t + 1, 0xC846093F, 0x5E6456AF, 0x5EDC7DDB, 0x09FA7C76, 0x08C127F9, 0x5EFC7CFF, 0xD79915AB);
    RoundWords(INITIAL, m, t + 1, Hash(0xC846093F, 0x5E6456AF, 0x5EDC7DDB, 0x09FA7C76, 0x792410DB),
               0x62658CA1, 0x08C127F9, 0x5EFC7CFF, 0xD79915AB, 0xD262FF50);
    PartsAre(t + 2, 0xD262FF50, 0xC846093F, 0xD79915AB, 0x5EDC7DDB, 0x4C5FEA1A, 0xDEDC1DBB, 0xF211824F);
    RoundWords(INITIAL, m, t + 2, Hash(0xD262FF50, 0xC846093F, 0xD79915AB, 0x5EDC7DDB, 0x09FA7C76),
               0x458544D6, 0x4C5FEA1A, 0xDEDC1DBB, 0xF211824F, 0x09D785FD);
    PartsAre(t + 3, 0x09D785FD, 0xD262FF50, 0xF211824F, 0xD79915AB, 0x3AF0BFA1, 0xD211974B, 0x3498BFD4);
    RoundWords(INITIAL, m, t + 3, Hash(0x09D785FD, 0xD262FF50, 0xF211824F, 0xD79915AB, 0x5EDC7DDB),
               0x44584CB7, 0x3AF0BFA1, 0xD211974B, 0x3498BFD4, 0x3F52DE5A);
  }

  lemma Rounds60(m: Block, t: nat)
    requires t == 60
    requires Rounds(INITIAL, m, t) == Hash(0x3F52DE5A, 0x09D785FD, 0x3498BFD4, 0xF211824F, 0xD79915AB)
    requires W(m, t + 0) == 0x7BA06619 && W(m, t + 1) == 0x6380AEA2 && W(m, t + 2) == 0xAE55269
    requires W(m, t + 3) == 0x627B49A1
    ensures Rounds(INITIAL, m, t + 4) == Hash(0x6B61C9E1, 0xB66C020B, 0x9523272C, 0xF5D5B051, 0x8FD4B796)
  {
    hide W, Rounds, Rotl5, Rotl30, F;
    PartsAre(t + 0, 0x3F52DE5A, 0x09D785FD, 0x3498BFD4, 0xF211824F, 0xEA5BCB47, 0xCF5EB866, 0x4275E17F);
    RoundWords(INITIAL, m, t + 0, Hash(0x3F52DE5A, 0x09D785FD, 0x3498BFD4, 0xF211824F, 0xD79915AB),
               0x7BA06619, 0xEA5BCB47, 0xCF5EB866, 0x4275E17F, 0xD756C147);
    PartsAre(t + 1, 0xD756C147, 0x3F52DE5A, 0x4275E17F, 0x3498BFD4, 0xEAD828FA, 0x49BF80F1, 0x8FD4B796);
    RoundWords(INITIAL, m, t + 1, Hash(0xD756C147, 0x3F52DE5A, 0x4275E17F, 0x3498BFD4, 0xF211824F),
               0x6380AEA2, 0xEAD828FA, 0x49BF80F1, 0x8FD4B796, 0x548C9CB2);
    PartsAre(t + 2, 0x548C9CB2, 0xD756C147, 0x8FD4B796, 0x4275E17F, 0x9193964A, 0x1AF797AE, 0xF5D5B051);
    RoundWords(INITIAL, m, t + 2, Hash(0x548C9CB2, 0xD756C147, 0x8FD4B796, 0x4275E17F, 0x3498BFD4),
               0x0AE55269, 0x9193964A, 0x1AF797AE, 0xF5D5B051, 0xB66C020B);
    PartsAre(t + 3, 0xB66C020B, 0x548C9CB2, 0xF5D5B051, 0x8FD4B796, 0xCD804176, 0x2E8D9B75, 0x9523272C);
    RoundWords(INITIAL, m, t + 3, Hash(0xB66C020B, 0x548C9CB2, 0xF5D5B051, 0x8FD4B796, 0x4275E17F),
               0x627B49A1, 0xCD804176, 0x2E8D9B75, 0x9523272C, 0x6B61C9E1);
  }

  lemma Rounds64(m: Block, t: nat)
    requires t == 64
    requires Rounds(INITIAL, m, t) == Hash(0x6B61C9E1, 0xB66C020B, 0x9523272C, 0xF5D5B051, 0x8FD4B796)
    requires W(m, t + 0) == 0x7CD45C9D && W(m, t + 1) == 0xF0000 && W(m, t + 2) == 0xFB50753A
    requires W(m, t + 3) == 0xEC6765E8
    ensures Rounds(INITIAL, m, t + 4) == Hash(0x78DD4D2B, 0x0C3DF2B4, 0x4405957E, 0x0677E9EB, 0x5AD87278)
  {
    hide W, Rounds, Rotl5, Rotl30, F;
    PartsAre(t + 0, 0x6B61C9E1, 0xB66C020B, 0x9523272C, 0xF5D5B051, 0x6C393C2D, 0xD69A9576, 0xED9B0082);
    RoundWords(INITIAL, m, t + 0, Hash(0x6B61C9E1, 0xB66C020B, 0x9523272C, 0xF5D5B051, 0x8FD4B796),
               0x7CD45C9D, 0x6C393C2D, 0xD69A9576, 0xED9B0082, 0x19DFA7AC);
    PartsAre(t + 1, 0x19DFA7AC, 0x6B61C9E1, 0xED9B0082, 0x9523272C, 0x3BF4F583, 0x13D9EE4F, 0x5AD87278);
    RoundWords(INITIAL, m, t + 1, Hash(0x19DFA7AC, 0x6B61C9E1, 0xED9B0082, 0x9523272C, 0xF5D5B051),
               0x000F0000, 0x3BF4F583, 0x13D9EE4F, 0x5AD87278, 0x101655F9);
    PartsAre(t + 2, 0x101655F9, 0x19DFA7AC, 0x5AD87278, 0xED9B0082, 0x02CABF22, 0xAE9CD556, 0x0677E9EB);
    RoundWords(INITIAL, m, t + 2, Hash(0x101655F9, 0x19DFA7AC, 0x5AD87278, 0xED9B0082, 0x9523272C),
               0xFB50753A, 0x02CABF22, 0xAE9CD556, 0x0677E9EB, 0x0C3DF2B4);
    PartsAre(t + 3, 0x0C3DF2B4, 0x101655F9, 0x0677E9EB, 0x5AD87278, 0x87BE5681, 0x4CB9CE6A, 0x4405957E);
    RoundWords(INITIAL, m, t + 3, Hash(0x0C3DF2B4, 0x101655F9, 0x0677E9EB, 0x5AD87278, 0xED9B0082),
               0xEC6765E8, 0x87BE5681, 0x4CB9CE6A, 0x4405957E, 0x78DD4D2B);
  }

  lemma Rounds68(m: Block, t: nat)
    requires t == 68
    requires Rounds(INITIAL, m, t) == Hash(0x78DD4D2B, 0x0C3DF2B4, 0x4405957E, 0x0677E9EB, 0x5AD87278)
    requires W(m, t + 0) == 0xBA3C2BE2 && W(m, t + 1) == 0x60C000 && W(m, t + 2) == 0x3A37CD05
    requires W(m, t + 3) == 0x458546F4
    ensures Rounds(INITIAL, m, t + 4) == Hash(0x39859DE7, 0xC199F8C7, 0x8FC96230, 0x125C24F0, 0xDE37534A)
  {
    hide W, Rounds, Rotl5, Rotl30, F;
    PartsAre(t + 0, 0x78DD4D2B, 0x0C3DF2B4, 0x4405957E, 0x0677E9EB, 0x1BA9A56F, 0x4E4F8E21, 0x030F7CAD);
    RoundWords(INITIAL, m, t + 0, Hash(0x78DD4D2B, 0x0C3DF2B4, 0x4405957E, 0x0677E9EB, 0x5AD87278),
               0xBA3C2BE2, 0x1BA9A56F, 0x4E4F8E21, 0x030F7CAD, 0x497093C0);
    PartsAre(t + 1, 0x497093C0, 0x78DD4D2B, 0x030F7CAD, 0x4405957E, 0x2E127809, 0x3FD7A4F8, 0xDE37534A);
    RoundWords(INITIAL, m, t + 1, Hash(0x497093C0, 0x78DD4D2B, 0x030F7CAD, 0x4405957E, 0x0677E9EB),
               0x0060C000, 0x2E127809, 0x3FD7A4F8, 0xDE37534A, 0x3F2588C2);
    PartsAre(t + 2, 0x3F2588C2, 0x497093C0, 0xDE37534A, 0x030F7CAD, 0xE4B11847, 0x9448BC27, 0x125C24F0);
    RoundWords(INITIAL, m, t + 2, Hash(0x3F2588C2, 0x497093C0, 0xDE37534A, 0x030F7CAD, 0x4405957E),
               0x3A37CD05, 0xE4B11847, 0x9448BC27, 0x125C24F0, 0xC199F8C7);
    PartsAre(t + 3, 0xC199F8C7, 0x3F2588C2, 0x125C24F0, 0xDE37534A, 0x333F18F8, 0xF34EFF78, 0x8FC96230);
    RoundWords(INITIAL, m, t + 3, Hash(0xC199F8C7, 0x3F2588C2, 0x125C24F0, 0xDE37534A, 0x030F7CAD),
               0x458546F4, 0x333F18F8, 0xF34EFF78, 0x8FC96230, 0x39859DE7);
  }

  lemma Rounds72(m: Block, t: nat)
    requires t == 72
    requires Rounds(INITIAL, m, t) == Hash(0x39859DE7, 0xC199F8C7, 0x8FC96230, 0x125C24F0, 0xDE37534A)
    requires W(m, t + 0) == 0xB8599DD6 && W(m, t + 1) == 0x380A1A26 && W(m, t + 2) == 0x1E02203
    requires W(m, t + 3) == 0xE7CC3456
    ensures Rounds(INITIAL, m, t + 4) == Hash(0x63F7DAB7, 0x5EE76897, 0xC45E4FDB, 0x3B6D0B79, 0xCE616779)
  {
    hide W, Rounds, Rotl5, Rotl30, F;
    PartsAre(t + 0, 0x39859DE7, 0xC199F8C7, 0x8FC96230, 0x125C24F0, 0x30B3BCE7, 0x5C0CBE07, 0xF0667E31);
    RoundWords(INITIAL, m, t + 0, Hash(0x39859DE7, 0xC199F8C7, 0x8FC96230, 0x125C24F0, 0xDE37534A),
               0xB8599DD6, 0x30B3BCE7, 0x5C0CBE07, 0xF0667E31, 0xEDB42DE4);
    PartsAre(t + 1, 0xEDB42DE4, 0x39859DE7, 0xF0667E31, 0x8FC96230, 0xB685BC9D, 0x462A81E6, 0xCE616779);
    RoundWords(INITIAL, m, t + 1, Hash(0xEDB42DE4, 0x39859DE7, 0xF0667E31, 0x8FC96230, 0x125C24F0),
               0x380A1A26, 0xB685BC9D, 0x462A81E6, 0xCE616779, 0x11793F6F);
    PartsAre(t + 2, 0x11793F6F, 0xEDB42DE4, 0xCE616779, 0xF0667E31, 0x2F27EDE2, 0xD3B334AC, 0x3B6D0B79);
    RoundWords(INITIAL, m, t + 2, Hash(0x11793F6F, 0xEDB42DE4, 0xCE616779, 0xF0667E31, 0x8FC96230),
               0x01E02203, 0x2F27EDE2, 0xD3B334AC, 0x3B6D0B79, 0x5EE76897);
    PartsAre(t + 3, 0x5EE76897, 0x11793F6F, 0x3B6D0B79, 0xCE616779, 0xDCED12EB, 0xE475536F, 0xC45E4FDB);
    RoundWords(INITIAL, m, t + 3, Hash(0x5EE76897, 0x11793F6F, 0x3B6D0B79, 0xCE616779, 0xF0667E31),
               0xE7CC3456, 0xDCED12EB, 0xE475536F, 0xC45E4FDB, 0x63F7DAB7);
  }

  lemma Rounds76(m: Block, t: nat)
    requires t == 76
    requires Rounds(INITIAL, m, t) == Hash(0x63F7DAB7, 0x5EE76897, 0xC45E4FDB, 0x3B6D0B79, 0xCE616779)
    requires W(m, t + 0) == 0xE6E60B69 && W(m, t + 1) == 0xF60A00 && W(m, t + 2) == 0x5795EF4F
    requires W(m, t + 3) == 0x822E0879
    ensures Rounds(INITIAL, m, t + 4) == Hash(0x42541B35, 0x5738D5E1, 0x21834873, 0x681E6DF6, 0xD8FDF6AD)
  {
    hide W, Rounds, Rotl5, Rotl30, F;
    PartsAre(t + 0, 0x63F7DAB7, 0x5EE76897, 0xC45E4FDB, 0x3B6D0B79, 0x7EFB56EC, 0xA1D42C35, 0xD7B9DA25);
    RoundWords(INITIAL, m, t + 0, Hash(0x63F7DAB7, 0x5EE76897, 0xC45E4FDB, 0x3B6D0B79, 0xCE616779),
               0xE6E60B69, 0x7EFB56EC, 0xA1D42C35, 0xD7B9DA25, 0xA079B7D9);
    PartsAre(t + 1, 0xA079B7D9, 0x63F7DAB7, 0xD7B9DA25, 0xC45E4FDB, 0x0F36FB34, 0x70104F49, 0xD8FDF6AD);
    RoundWords(INITIAL, m, t + 1, Hash(0xA079B7D9, 0x63F7DAB7, 0xD7B9DA25, 0xC45E4FDB, 0x3B6D0B79),
               0x00F60A00, 0x0F36FB34, 0x70104F49, 0xD8FDF6AD, 0x860D21CC);
    PartsAre(t + 2, 0x860D21CC, 0xA079B7D9, 0xD8FDF6AD, 0xD7B9DA25, 0xC1A43990, 0xAF3D9B51, 0x681E6DF6);
    RoundWords(INITIAL, m, t + 2, Hash(0x860D21CC, 0xA079B7D9, 0xD8FDF6AD, 0xD7B9DA25, 0xC45E4FDB),
               0x5795EF4F, 0xC1A43990, 0xAF3D9B51, 0x681E6DF6, 0x5738D5E1);
    PartsAre(t + 3, 0x5738D5E1, 0x860D21CC, 0x681E6DF6, 0xD8FDF6AD, 0xE71ABC2A, 0x36EEBA97, 0x21834873);
    RoundWords(INITIAL, m, t + 3, Hash(0x5738D5E1, 0x860D21CC, 0x681E6DF6, 0xD8FDF6AD, 0xD7B9DA25),
               0x822E0879, 0xE71ABC2A, 0x36EEBA97, 0x21834873, 0x42541B35);
  }

  lemma AbcRounds(m: Block)
    requires IsAbc(m)
    ensures Rounds(INITIAL, m, TURNS) == Hash(0x42541B35, 0x5738D5E1, 0x21834873, 0x681E6DF6, 0xD8FDF6AD)
  {
    hide W, Rounds;
    assert forall t | 0 <= t < 16 :: W(m, t) == if t == 0 then 0x61626380 else if t == 15 then 0x18 else 0 by {
      forall t | 0 <= t < 16 ensures W(m, t) == if t == 0 then 0x61626380 else if t == 15 then 0x18 else 0 {
        FirstWords(m, t);
      }
    }
    RoundsBegin(m);
    Words16(m, 16);
    Words24(m, 24);
    Words32(m, 32);
    Words40(m, 40);
    Words48(m, 48);
    Words56(m, 56);
    Words64(m, 64);
    Words72(m, 72);
    Rounds0(m, 0);
    Rounds4(m, 4);
    Rounds8(m, 8);
    Rounds12(m, 12);
    Rounds16(m, 16);
    Rounds20(m, 20);
    Rounds24(m, 24);
    Rounds28(m, 28);
    Rounds32(m, 32);
    Rounds36(m, 36);
    Rounds40(m, 40);
    Rounds44(m, 44);
    Rounds48(m, 48);
    Rounds52(m, 52);
    Rounds56(m, 56);
    Rounds60(m, 60);
    Rounds64(m, 64);
    Rounds68(m, 68);
    Rounds72(m, 72);
    Rounds76(m, 76);
  }

  lemma RoundsBegin(m: Block)
    ensures Rounds(INITIAL, m, 0) == INITIAL
  {
  }

  lemma AbcPadded(s: seq<byte>)
    requires s == [0x61, 0x62, 0x63]
    ensures IsAbc(Pad(s))
  {
    WordAppended(0, 24, 4);
    WordAppended(0, 0, 0);
  }

  /** The digest of "abc". */
  lemma AbcDigest(s: seq<byte>)
    requires s == [0x61, 0x62, 0x63]
    ensures Digest(s) == Hash(0xA9993E36, 0x4706816A, 0xBA3E2571, 0x7850C26C, 0x9CD0D89D)
  {
    hide W, Rounds, Pad, IsAbc;
    AbcPadded(s);
    OneBlock(Pad(s));
    AbcRounds(Pad(s));
  }

  lemma OneBlock(m: seq<byte>)
    requires IsAbc(m)
    ensures |m| == 64 && HashBlocks(INITIAL, m) == Compress(INITIAL, m)
  {
    hide Compress;
    assert m[..0] == [] && m[0..] == m;
    assert HashBlocks(INITIAL, m[..0]) == INITIAL;
  }
}
