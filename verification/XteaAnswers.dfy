/** Answers of XTEA that are known: each computed round by round. */
module XteaAnswers {
  import opened Chunks
  import opened Feistel
  import opened Words
  import opened Xtea

  /** What a mix comes to, when it is known in bits. */
  lemma MixIs(v: bv32, t: bv32, m: bv32)
    requires MixBits(v, t) == m
    ensures Mix(v as int, t as int) == m as int
  {
    hide MixBits;
    BackToBits(v);
    BackToBits(t);
  }

  lemma BackToBits(x: bv32)
    ensures (x as int) as bv32 == x
  {
  }

  /** Round `i` takes the halves `a`, `b` to `a'`, `b'`. */
  lemma TurnWords(k: Key, i: nat, start: Block, sum: u32, a: u32, b: u32, a': u32, b': u32)
    requires i < 32 && SumAfter(i) == sum && ForwardAll(Rounds(k)[..i], start) == Block(a, b)
    requires a' == Add32(a, Mix(b, Add32(sum, k[sum % 4])))
    requires var next := Sub32(sum, DELTA); b' == Add32(b, Mix(a', Add32(next, k[next / 0x800 % 4])))
    ensures SumAfter(i + 1) == Sub32(sum, DELTA) && ForwardAll(Rounds(k)[..i + 1], start) == Block(a', b')
  {
    hide Mix, Rounds, Add32, Sub32;
    RoundsPrefix(k, i);
  }

  /** The same, with the halves, the two sums of key and running sum, and the
      two mixes known in bits. */
  lemma Turn(k: Key, i: nat, start: Block, sum: bv32, a: bv32, b: bv32,
             t0: bv32, m0: bv32, a': bv32, t1: bv32, m1: bv32, b': bv32)
    requires i < 32 && SumAfter(i) == sum as int
    requires ForwardAll(Rounds(k)[..i], start) == Block(a as int, b as int)
    requires t0 as int == Add32(sum as int, k[sum as int % 4]) && MixBits(b, t0) == m0
    requires a' as int == Add32(a as int, m0 as int)
    requires var next := Sub32(sum as int, DELTA); t1 as int == Add32(next, k[next / 0x800 % 4])
    requires MixBits(a', t1) == m1 && b' as int == Add32(b as int, m1 as int)
    ensures SumAfter(i + 1) == Sub32(sum as int, DELTA)
    ensures ForwardAll(Rounds(k)[..i + 1], start) == Block(a' as int, b' as int)
  {
    hide Mix, MixBits, Rounds, Add32, Sub32, SumAfter, ForwardAll;
    MixIs(b, t0, m0);
    MixIs(a', t1, m1);
    TurnWords(k, i, start, sum as int, a as int, b as int, a' as int, b' as int);
  }

  const ZERO: Key := [0, 0, 0, 0]
  const ZEROS := Block(0, 0)
  const COUNT: Key := [0x00010203, 0x04050607, 0x08090A0B, 0x0C0D0E0F]
  const LETTERS := Block(0x41424344, 0x45464748)

  lemma Zero0()
    requires SumAfter(0) == 0x0 && ForwardAll(Rounds(ZERO)[..0], ZEROS) == Block(0x0, 0x0)
    ensures SumAfter(4) == 0x78DDE6E4 && ForwardAll(Rounds(ZERO)[..4], ZEROS) == Block(0xA95F919D, 0xD7D057CB)
  {
    hide SumAfter, ForwardAll, Rounds;
    Turn(ZERO, 0, ZEROS, 0x00000000, 0x00000000, 0x00000000,
         0x00000000, 0x00000000, 0x00000000, 0x9E3779B9, 0x9E3779B9, 0x9E3779B9);
    Turn(ZERO, 1, ZEROS, 0x9E3779B9, 0x00000000, 0x9E3779B9,
         0x9E3779B9, 0x1B8AE3AF, 0x1B8AE3AF, 0x3C6EF372, 0xEF93A2EE, 0x8DCB1CA7);
    Turn(ZERO, 2, ZEROS, 0x3C6EF372, 0x1B8AE3AF, 0x8DCB1CA7,
         0x3C6EF372, 0x5AC45C4E, 0x764F3FFD, 0xDAA66D2B, 0x0736AB07, 0x9501C7AE);
    Turn(ZERO, 3, ZEROS, 0xDAA66D2B, 0x764F3FFD, 0x9501C7AE,
         0xDAA66D2B, 0x331051A0, 0xA95F919D, 0x78DDE6E4, 0x42CE901D, 0xD7D057CB);
  }

  lemma Zero1()
    requires SumAfter(4) == 0x78DDE6E4 && ForwardAll(Rounds(ZERO)[..4], ZEROS) == Block(0xA95F919D, 0xD7D057CB)
    ensures SumAfter(8) == 0xF1BBCDC8 && ForwardAll(Rounds(ZERO)[..8], ZEROS) == Block(0x2FCA0CF4, 0x16428170)
  {
    hide SumAfter, ForwardAll, Rounds;
    Turn(ZERO, 4, ZEROS, 0x78DDE6E4, 0xA95F919D, 0xD7D057CB,
         0x78DDE6E4, 0x2B51B33D, 0xD4B144DA, 0x1715609D, 0x35766CFD, 0x0D46C4C8);
    Turn(ZERO, 5, ZEROS, 0x1715609D, 0xD4B144DA, 0x0D46C4C8,
         0x1715609D, 0xF6585FF3, 0xCB09A4CD, 0xB54CDA56, 0x34877C95, 0x41CE415D);
    Turn(ZERO, 6, ZEROS, 0xB54CDA56, 0xCB09A4CD, 0x41CE415D,
         0xB54CDA56, 0xD5F47361, 0xA0FE182E, 0x5384540F, 0xF860DE40, 0x3A2F1F9D);
    Turn(ZERO, 7, ZEROS, 0x5384540F, 0xA0FE182E, 0x3A2F1F9D,
         0x5384540F, 0x8ECBF4C6, 0x2FCA0CF4, 0xF1BBCDC8, 0xDC1361D3, 0x16428170);
  }

  lemma Zero2()
    requires SumAfter(8) == 0xF1BBCDC8 && ForwardAll(Rounds(ZERO)[..8], ZEROS) == Block(0x2FCA0CF4, 0x16428170)
    ensures SumAfter(12) == 0x6A99B4AC && ForwardAll(Rounds(ZERO)[..12], ZEROS) == Block(0x38312D23, 0xF196868B)
  {
    hide SumAfter, ForwardAll, Rounds;
    Turn(ZERO, 8, ZEROS, 0xF1BBCDC8, 0x2FCA0CF4, 0x16428170,
         0xF1BBCDC8, 0x8B6749B3, 0xBB3156A7, 0x8FF34781, 0xFE0D70ED, 0x144FF25D);
    Turn(ZERO, 9, ZEROS, 0x8FF34781, 0xBB3156A7, 0x144FF25D,
         0x8FF34781, 0xD75E0B1E, 0x928F61C5, 0x2E2AC13A, 0x90DB0819, 0xA52AFA76);
    Turn(ZERO, 10, ZEROS, 0x2E2AC13A, 0x928F61C5, 0xA52AFA76,
         0x2E2AC13A, 0xD29B2A13, 0x652A8BD8, 0xCC623AF3, 0x7ACE4F45, 0x1FF949BB);
    Turn(ZERO, 11, ZEROS, 0xCC623AF3, 0x652A8BD8, 0x1FF949BB,
         0xCC623AF3, 0xD306A14B, 0x38312D23, 0x6A99B4AC, 0xD19D3CD0, 0xF196868B);
  }

  lemma Zero3()
    requires SumAfter(12) == 0x6A99B4AC && ForwardAll(Rounds(ZERO)[..12], ZEROS) == Block(0x38312D23, 0xF196868B)
    ensures SumAfter(16) == 0xE3779B90 && ForwardAll(Rounds(ZERO)[..16], ZEROS) == Block(0x2A72A594, 0x1072425F)
  {
    hide SumAfter, ForwardAll, Rounds;
    Turn(ZERO, 12, ZEROS, 0x6A99B4AC, 0x38312D23, 0xF196868B,
         0x6A99B4AC, 0x7AE2D7A3, 0xB31404C6, 0x08D12E65, 0xEF3DDF69, 0xE0D465F4);
    Turn(ZERO, 13, ZEROS, 0x08D12E65, 0xB31404C6, 0xE0D465F4,
         0x08D12E65, 0xE3C44C06, 0x96D850CC, 0xA708A81E, 0xA704B70C, 0x87D91D00);
    Turn(ZERO, 14, ZEROS, 0xA708A81E, 0x96D850CC, 0x87D91D00,
         0xA708A81E, 0xA6809DF6, 0x3D58EEC2, 0x454021D7, 0x54FD3BCF, 0xDCD658CF);
    Turn(ZERO, 15, ZEROS, 0x454021D7, 0x3D58EEC2, 0xDCD658CF,
         0x454021D7, 0xED19B6D2, 0x2A72A594, 0xE3779B90, 0x339BE990, 0x1072425F);
  }

  lemma Zero4()
    requires SumAfter(16) == 0xE3779B90 && ForwardAll(Rounds(ZERO)[..16], ZEROS) == Block(0x2A72A594, 0x1072425F)
    ensures SumAfter(20) == 0x5C558274 && ForwardAll(Rounds(ZERO)[..20], ZEROS) == Block(0x80B16CFA, 0x9D2CD877)
  {
    hide SumAfter, ForwardAll, Rounds;
    Turn(ZERO, 16, ZEROS, 0xE3779B90, 0x2A72A594, 0x1072425F,
         0xE3779B90, 0xFB6E61D1, 0x25E10765, 0x81AF1549, 0x048F9099, 0x1501D2F8);
    Turn(ZERO, 17, ZEROS, 0x81AF1549, 0x25E10765, 0x1501D2F8,
         0x81AF1549, 0xE419E146, 0x09FAE8AB, 0x1FE68F02, 0xB63AC9A2, 0xCB3C9C9A);
    Turn(ZERO, 18, ZEROS, 0x1FE68F02, 0x09FAE8AB, 0xCB3C9C9A,
         0x1FE68F02, 0x9F2A46DC, 0xA9252F87, 0xBE1E08BB, 0xFE5F0828, 0xC99BA4C2);
    Turn(ZERO, 19, ZEROS, 0xBE1E08BB, 0xA9252F87, 0xC99BA4C2,
         0xBE1E08BB, 0xD78C3D73, 0x80B16CFA, 0x5C558274, 0xD39133B5, 0x9D2CD877);
  }

  lemma Zero5()
    requires SumAfter(20) == 0x5C558274 && ForwardAll(Rounds(ZERO)[..20], ZEROS) == Block(0x80B16CFA, 0x9D2CD877)
    ensures SumAfter(24) == 0xD5336958 && ForwardAll(Rounds(ZERO)[..24], ZEROS) == Block(0xFB9F49AA, 0x991824E1)
  {
    hide SumAfter, ForwardAll, Rounds;
    Turn(ZERO, 20, ZEROS, 0x5C558274, 0x80B16CFA, 0x9D2CD877,
         0x5C558274, 0x2F04385E, 0xAFB5A558, 0xFA8CFC2D, 0x5751622F, 0xF47E3AA6);
    Turn(ZERO, 21, ZEROS, 0xFA8CFC2D, 0xAFB5A558, 0xF47E3AA6,
         0xFA8CFC2D, 0xCE326A76, 0x7DE80FCE, 0x98C475E6, 0xC393B98A, 0xB811F430);
    Turn(ZERO, 22, ZEROS, 0x98C475E6, 0x7DE80FCE, 0xB811F430,
         0x98C475E6, 0xA435B537, 0x221DC505, 0x36FBEF9F, 0x74116CE2, 0x2C236112);
    Turn(ZERO, 23, ZEROS, 0x36FBEF9F, 0x221DC505, 0x2C236112,
         0x36FBEF9F, 0xD98184A5, 0xFB9F49AA, 0xD5336958, 0x6CF4C3CF, 0x991824E1);
  }

  lemma Zero6()
    requires SumAfter(24) == 0xD5336958 && ForwardAll(Rounds(ZERO)[..24], ZEROS) == Block(0xFB9F49AA, 0x991824E1)
    ensures SumAfter(28) == 0x4E11503C && ForwardAll(Rounds(ZERO)[..28], ZEROS) == Block(0x9AA30594, 0xF7474ADB)
  {
    hide SumAfter, ForwardAll, Rounds;
    Turn(ZERO, 24, ZEROS, 0xD5336958, 0xFB9F49AA, 0x991824E1,
         0xD5336958, 0xFB51DD40, 0xF6F126EA, 0x736AE311, 0x2CFDED90, 0xC6161271);
    Turn(ZERO, 25, ZEROS, 0x736AE311, 0xF6F126EA, 0xC6161271,
         0x736AE311, 0x5E0D4AE5, 0x54FE71CF, 0x11A25CCA, 0xB39D3D87, 0x79B34FF8);
    Turn(ZERO, 26, ZEROS, 0x11A25CCA, 0x54FE71CF, 0x79B34FF8,
         0x11A25CCA, 0x030EE93D, 0x580D5B0C, 0xAFD9D683, 0x75FAE3A7, 0xEFAE339F);
    Turn(ZERO, 27, ZEROS, 0xAFD9D683, 0x580D5B0C, 0xEFAE339F,
         0xAFD9D683, 0x4295AA88, 0x9AA30594, 0x4E11503C, 0x0799173C, 0xF7474ADB);
  }

  lemma Zero7()
    requires SumAfter(28) == 0x4E11503C && ForwardAll(Rounds(ZERO)[..28], ZEROS) == Block(0x9AA30594, 0xF7474ADB)
    ensures SumAfter(32) == 0xC6EF3720 && ForwardAll(Rounds(ZERO)[..32], ZEROS) == Block(0xDEE9D4D8, 0xF7131ED9)
  {
    hide SumAfter, ForwardAll, Rounds;
    Turn(ZERO, 28, ZEROS, 0x4E11503C, 0x9AA30594, 0xF7474ADB,
         0x4E11503C, 0x2504B2FD, 0xBFA7B891, 0xEC48C9F5, 0x5366A490, 0x4AADEF6B);
    Turn(ZERO, 29, ZEROS, 0xEC48C9F5, 0xBFA7B891, 0x4AADEF6B,
         0xEC48C9F5, 0x1F7140C3, 0xDF18F954, 0x8A8043AE, 0x5C100870, 0xA6BDF7DB);
    Turn(ZERO, 30, ZEROS, 0x8A8043AE, 0xDF18F954, 0xA6BDF7DB,
         0x8A8043AE, 0x9F28CA47, 0x7E41C39B, 0x28B7BD67, 0x4E984620, 0xF5563DFB);
    Turn(ZERO, 31, ZEROS, 0x28B7BD67, 0x7E41C39B, 0xF5563DFB,
         0x28B7BD67, 0x60A8113D, 0xDEE9D4D8, 0xC6EF3720, 0x01BCE0DE, 0xF7131ED9);
  }

  lemma Letters0()
    requires SumAfter(0) == 0x0 && ForwardAll(Rounds(COUNT)[..0], LETTERS) == Block(0x41424344, 0x45464748)
    ensures SumAfter(4) == 0x78DDE6E4 && ForwardAll(Rounds(COUNT)[..4], LETTERS) == Block(0xA3DE6C88, 0xF1E7792D)
  {
    hide SumAfter, ForwardAll, Rounds;
    Turn(COUNT, 0, LETTERS, 0x00000000, 0x41424344, 0x45464748,
         0x00010203, 0x9B958C01, 0xDCD7CF45, 0xAA4487C8, 0x02369EA7, 0x477CE5EF);
    Turn(COUNT, 1, LETTERS, 0x9E3779B9, 0xDCD7CF45, 0x477CE5EF,
         0xA23C7FC0, 0x1F4EE00E, 0xFC26AF53, 0x4477FD7D, 0x85C592E0, 0xCD4278CF);
    Turn(COUNT, 2, LETTERS, 0x3C6EF372, 0xFC26AF53, 0xCD4278CF,
         0x4477FD7D, 0xDBE7E578, 0xD80E94CB, 0xDEAB7332, 0x809CBFD3, 0x4DDF38A2);
    Turn(COUNT, 3, LETTERS, 0xDAA66D2B, 0xD80E94CB, 0x4DDF38A2,
         0xE6B37B3A, 0xCBCFD7BD, 0xA3DE6C88, 0x78DEE8E7, 0xA408408B, 0xF1E7792D);
  }

  lemma Letters1()
    requires SumAfter(4) == 0x78DDE6E4 && ForwardAll(Rounds(COUNT)[..4], LETTERS) == Block(0xA3DE6C88, 0xF1E7792D)
    ensures SumAfter(8) == 0xF1BBCDC8 && ForwardAll(Rounds(COUNT)[..8], LETTERS) == Block(0x8F65016F, 0xCE368FE5)
  {
    hide SumAfter, ForwardAll, Rounds;
    Turn(COUNT, 4, LETTERS, 0x78DDE6E4, 0xA3DE6C88, 0xF1E7792D,
         0x78DEE8E7, 0x733ECAA1, 0x171D3729, 0x171662A0, 0x9F9EB0F2, 0x91862A1F);
    Turn(COUNT, 5, LETTERS, 0x1715609D, 0x171D3729, 0x91862A1F,
         0x1B1A66A4, 0xB56EDC1B, 0xCC8C1344, 0xC159E865, 0x5A68807B, 0xEBEEAA9A);
    Turn(COUNT, 6, LETTERS, 0xB54CDA56, 0xCC8C1344, 0xEBEEAA9A,
         0xBD55E461, 0x18F163EF, 0xE57D7733, 0x5B8D5E1A, 0x6DF751A6, 0x59E5FC40);
    Turn(COUNT, 7, LETTERS, 0x5384540F, 0xE57D7733, 0x59E5FC40,
         0x5F91621E, 0xA9E78A3C, 0x8F65016F, 0xF5C0D3CF, 0x745093A5, 0xCE368FE5);
  }

  lemma Letters2()
    requires SumAfter(8) == 0xF1BBCDC8 && ForwardAll(Rounds(COUNT)[..8], LETTERS) == Block(0x8F65016F, 0xCE368FE5)
    ensures SumAfter(12) == 0x6A99B4AC && ForwardAll(Rounds(COUNT)[..12], LETTERS) == Block(0xEB8E9954, 0x24E5DFEF)
  {
    hide SumAfter, ForwardAll, Rounds;
    Turn(COUNT, 8, LETTERS, 0xF1BBCDC8, 0x8F65016F, 0xCE368FE5,
         0xF1BCCFCB, 0x42F315DF, 0xD258174E, 0x8FF44984, 0x7A9F822C, 0x48D61211);
    Turn(COUNT, 9, LETTERS, 0x8FF34781, 0xD258174E, 0x48D61211,
         0x93F84D88, 0x4405EE19, 0x165E0567, 0x2E2BC33D, 0x559B68FF, 0x9E717B10);
    Turn(COUNT, 10, LETTERS, 0x2E2AC13A, 0x165E0567, 0x9E717B10,
         0x3633CB45, 0xB4667EAD, 0xCAC48414, 0xD86F4902, 0xAC8DA076, 0x4AFF1B86);
    Turn(COUNT, 11, LETTERS, 0xCC623AF3, 0xCAC48414, 0x4AFF1B86,
         0xD86F4902, 0x20CA1540, 0xEB8E9954, 0x72A2BEB7, 0xD9E6C469, 0x24E5DFEF);
  }

  lemma Letters3()
    requires SumAfter(12) == 0x6A99B4AC && ForwardAll(Rounds(COUNT)[..12], LETTERS) == Block(0xEB8E9954, 0x24E5DFEF)
    ensures SumAfter(16) == 0xE3779B90 && ForwardAll(Rounds(COUNT)[..16], LETTERS) == Block(0xDEA0B0B4, 0x966B066)
  {
    hide SumAfter, ForwardAll, Rounds;
    Turn(COUNT, 12, LETTERS, 0x6A99B4AC, 0xEB8E9954, 0x24E5DFEF,
         0x6A9AB6AF, 0x1EFA1951, 0x0A88B2A5, 0x0CD6346C, 0xBFBE1606, 0xE4A3F5F5);
    Turn(COUNT, 13, LETTERS, 0x08D12E65, 0x0A88B2A5, 0xE4A3F5F5,
         0x0CD6346C, 0x3D680298, 0x47F0B53D, 0xAB0DAE25, 0x6E282593, 0x52CC1B88);
    Turn(COUNT, 14, LETTERS, 0xA708A81E, 0x47F0B53D, 0x52CC1B88,
         0xAF11B229, 0x2E3241CD, 0x7622F70A, 0x454123DA, 0x92807DF8, 0xE54C9980);
    Turn(COUNT, 15, LETTERS, 0x454021D7, 0x7622F70A, 0xE54C9980,
         0x514D2FE6, 0x687DB9AA, 0xDEA0B0B4, 0xEF84A99F, 0x241A16E6, 0x0966B066);
  }

  lemma Letters4()
    requires SumAfter(16) == 0xE3779B90 && ForwardAll(Rounds(COUNT)[..16], LETTERS) == Block(0xDEA0B0B4, 0x966B066)
    ensures SumAfter(20) == 0x5C558274 && ForwardAll(Rounds(COUNT)[..20], LETTERS) == Block(0x97856208, 0x1099631C)
  {
    hide SumAfter, ForwardAll, Rounds;
    Turn(COUNT, 16, LETTERS, 0xE3779B90, 0xDEA0B0B4, 0x0966B066,
         0xE3789D93, 0x7CFE79DA, 0x5B9F2A8E, 0x89B81F54, 0x9F756316, 0xA8DC137C);
    Turn(COUNT, 17, LETTERS, 0x81AF1549, 0x5B9F2A8E, 0xA8DC137C,
         0x85B41B50, 0xB4D7F187, 0x10771C15, 0x23EB9509, 0x3B8200CC, 0xE45E1448);
    Turn(COUNT, 18, LETTERS, 0x1FE68F02, 0x10771C15, 0xE45E1448,
         0x27EF990D, 0x00CE5167, 0x11456D7C, 0xC2230EC2, 0xE40164E5, 0xC85F792D);
    Turn(COUNT, 19, LETTERS, 0xBE1E08BB, 0x11456D7C, 0xC85F792D,
         0xCA2B16CA, 0x863FF48C, 0x97856208, 0x5C568477, 0x4839E9EF, 0x1099631C);
  }

  lemma Letters5()
    requires SumAfter(20) == 0x5C558274 && ForwardAll(Rounds(COUNT)[..20], LETTERS) == Block(0x97856208, 0x1099631C)
    ensures SumAfter(24) == 0xD5336958 && ForwardAll(Rounds(COUNT)[..24], LETTERS) == Block(0xC1CDCCFE, 0x6F593666)
  {
    hide SumAfter, ForwardAll, Rounds;
    Turn(COUNT, 20, LETTERS, 0x5C558274, 0x97856208, 0x1099631C,
         0x5C568477, 0x45FAD983, 0xDD803B8B, 0x069A0A3C, 0xBAF5FECB, 0xCB8F61E7);
    Turn(COUNT, 21, LETTERS, 0xFA8CFC2D, 0xDD803B8B, 0xCB8F61E7,
         0xFE920234, 0x74ABC552, 0x522C00DD, 0xA0CD7FF1, 0xD2B01142, 0x9E3F7329);
    Turn(COUNT, 22, LETTERS, 0x98C475E6, 0x522C00DD, 0x9E3F7329,
         0xA0CD7FF1, 0x258B43C3, 0x77B744A0, 0x3B00F5A6, 0xCB81C163, 0x69C1348C);
    Turn(COUNT, 23, LETTERS, 0x36FBEF9F, 0x77B744A0, 0x69C1348C,
         0x4308FDAE, 0x4A16885E, 0xC1CDCCFE, 0xD9386F5F, 0x059801DA, 0x6F593666);
  }

  lemma Letters6()
    requires SumAfter(24) == 0xD5336958 && ForwardAll(Rounds(COUNT)[..24], LETTERS) == Block(0xC1CDCCFE, 0x6F593666)
    ensures SumAfter(28) == 0x4E11503C && ForwardAll(Rounds(COUNT)[..28], LETTERS) == Block(0xC471004F, 0x5097C822)
  {
    hide SumAfter, ForwardAll, Rounds;
    Turn(COUNT, 24, LETTERS, 0xD5336958, 0xC1CDCCFE, 0x6F593666,
         0xD5346B5B, 0xB3768D62, 0x75445A60, 0x736BE514, 0xBE583A27, 0x2DB1708D);
    Turn(COUNT, 25, LETTERS, 0x736AE311, 0x75445A60, 0x2DB1708D,
         0x776FE918, 0x7F441AF9, 0xF4887559, 0x1DAF6AD9, 0x5E04E14A, 0x8BB651D7);
    Turn(COUNT, 26, LETTERS, 0x11A25CCA, 0xF4887559, 0x8BB651D7,
         0x19AB66D5, 0x53446700, 0x47CCDC59, 0xB7E2E08E, 0x71229F45, 0xFCD8F11C);
    Turn(COUNT, 27, LETTERS, 0xAFD9D683, 0x47CCDC59, 0xFCD8F11C,
         0xBBE6E492, 0x7CA423F6, 0xC471004F, 0x561A5A47, 0x53BED706, 0x5097C822);
  }

  lemma Letters7()
    requires SumAfter(28) == 0x4E11503C && ForwardAll(Rounds(COUNT)[..28], LETTERS) == Block(0xC471004F, 0x5097C822)
    ensures SumAfter(32) == 0xC6EF3720 && ForwardAll(Rounds(COUNT)[..32], LETTERS) == Block(0x497DF3D0, 0x72612CB5)
  {
    hide SumAfter, ForwardAll, Rounds;
    Turn(COUNT, 28, LETTERS, 0x4E11503C, 0xC471004F, 0x5097C822,
         0x4E12523F, 0x128256BC, 0xD6F3570B, 0xF04DCFFC, 0xB03B8EEF, 0x00D35711);
    Turn(COUNT, 29, LETTERS, 0xEC48C9F5, 0xD6F3570B, 0x00D35711,
         0xF04DCFFC, 0xFE4A8D45, 0xD53DE450, 0x8A8145B1, 0xA034CBC3, 0xA10822D4);
    Turn(COUNT, 30, LETTERS, 0x8A8043AE, 0xD53DE450, 0xA10822D4,
         0x92894DB9, 0x241BC293, 0xF959A6E3, 0x34C4CB76, 0xBF6E829C, 0x6076A570);
    Turn(COUNT, 31, LETTERS, 0x28B7BD67, 0xF959A6E3, 0x6076A570,
         0x34C4CB76, 0x50244CED, 0x497DF3D0, 0xCEF8412B, 0x11EA8745, 0x72612CB5);
  }

  lemma RoundsAtFirst(k: Key, start: Block)
    ensures SumAfter(0) == 0 && ForwardAll(Rounds(k)[..0], start) == start && Rounds(k)[..32] == Rounds(k)
  {
    assert Rounds(k)[..0] == [];
  }

  /** The key 0 and a block of zeros. */
  lemma ZeroAnswer()
    ensures ForwardAll(Rounds(ZERO), ZEROS) == Block(0xDEE9D4D8, 0xF7131ED9)
  {
    hide SumAfter, ForwardAll, Rounds;
    RoundsAtFirst(ZERO, ZEROS);
    Zero0(); Zero1(); Zero2(); Zero3(); Zero4(); Zero5(); Zero6(); Zero7();
  }

  /** The published answer for the key 00 01 .. 0F and the text of the letters A
      to H, read as words. */
  lemma LettersAnswer()
    ensures ForwardAll(Rounds(COUNT), LETTERS) == Block(0x497DF3D0, 0x72612CB5)
  {
    hide SumAfter, ForwardAll, Rounds;
    RoundsAtFirst(COUNT, LETTERS);
    Letters0(); Letters1(); Letters2(); Letters3(); Letters4(); Letters5(); Letters6(); Letters7();
  }

  /** The same through the bytes of a buffer, words stored least byte first. */
  lemma ZeroChunk(c: Chunk)
    requires c == [0, 0, 0, 0, 0, 0, 0, 0]
    ensures EncryptChunk(ZERO, c) == [0xD8, 0xD4, 0xE9, 0xDE, 0xD9, 0x1E, 0x13, 0xF7]
  {
    hide ForwardAll, Rounds;
    ZeroAnswer();
    assert c[..4] == [0, 0, 0, 0] && c[4..] == [0, 0, 0, 0];
    assert LoadBlock(c) == ZEROS;
    assert Store32(0xDEE9D4D8) == [0xD8, 0xD4, 0xE9, 0xDE] && Store32(0xF7131ED9) == [0xD9, 0x1E, 0x13, 0xF7];
  }

  lemma LettersChunk(c: Chunk)
    requires c == [0x44, 0x43, 0x42, 0x41, 0x48, 0x47, 0x46, 0x45]
    ensures EncryptChunk(COUNT, c) == [0xD0, 0xF3, 0x7D, 0x49, 0xB5, 0x2C, 0x61, 0x72]
  {
    hide ForwardAll, Rounds;
    LettersAnswer();
    assert c[..4] == [0x44, 0x43, 0x42, 0x41] && c[4..] == [0x48, 0x47, 0x46, 0x45];
    assert LoadBlock(c) == LETTERS;
    assert Store32(0x497DF3D0) == [0xD0, 0xF3, 0x7D, 0x49] && Store32(0x72612CB5) == [0xB5, 0x2C, 0x61, 0x72];
  }
}
