/** The Jenkins hash of a particular key, worked out line by line: it fixes the rotations of `mix` and `final`. */
module JenkinsExample {
  import opened Bits
  import opened Words
  import opened XorDigits
  import opened JenkinsSpec

  lemma MixLineTo(t: Triple, r: nat, p: nat, q: nat, d: Word, s: Word, z: Word, u: Triple)
    requires 0 < r < 32 && p == Pow2(r) && q == Pow2(32 - r)
    requires d == (t.a - t.c) % 0x1_0000_0000 && s == t.c % q * p + t.c / q && Xor(d, s) == z
    requires u == Triple(t.b, u.b, z) && u.b == (t.c + t.b) % 0x1_0000_0000
    ensures MixLine(t, r) == u
  {
    hide Xor, Rot, Rotated, Pow2;
    RotatedIs(t.c, r, p, q);
  }

  lemma FinalLineTo(t: Triple, r: nat, p: nat, q: nat, x: Word, s: Word, u: Triple)
    requires 0 < r < 32 && p == Pow2(r) && q == Pow2(32 - r)
    requires Xor(t.c, t.b) == x && s == t.b % q * p + t.b / q
    requires u == Triple(t.b, u.b, t.a) && u.b == (x - s) % 0x1_0000_0000
    ensures FinalLine(t, r) == u
  {
    hide Xor, Rot, Rotated, Pow2;
    RotatedIs(t.b, r, p, q);
  }

  lemma Powers()
    ensures Pow2(4) == 0x10 && Pow2(6) == 0x40 && Pow2(8) == 0x100 && Pow2(11) == 0x800 && Pow2(14) == 0x4000
    ensures Pow2(16) == 0x10000 && Pow2(19) == 0x80000 && Pow2(24) == 0x1000000 && Pow2(25) == 0x2000000
    ensures Pow2(28) == 0x10000000 && Pow2(26) == 0x4000000 && Pow2(21) == 0x200000 && Pow2(18) == 0x40000
    ensures Pow2(13) == 0x2000 && Pow2(7) == 0x80
  {
    Pow2Values();
  }

  /** The exclusive ors of `mix`. */
  lemma MixXors()
    ensures Xor(0x0b08f803, 0x0112c644) == 0x0a1a3e47
    ensures Xor(0x41b3ad27, 0x868f91c2) == 0xc73c3ce5
    ensures Xor(0xc4a2daed, 0x3c3ce5c7) == 0xf89e3f2a
    ensures Xor(0x9d5b16ef, 0x3f2af89e) == 0xa271ee71
    ensures Xor(0xbac3a48d, 0x738d138f) == 0xc94eb702
    ensures Xor(0x8c851b26, 0x94eb702c) == 0x186e6b0a
  {
    hide Xor, Digit.Value;
    DigitValues();
    XorEight(0x0b08f803, 0x0112c644, 0x0a1a3e47, D0, DB, D0, D8, DF, D8, D0, D3,
             D0, D1, D1, D2, DC, D6, D4, D4, D0, DA, D1, DA, D3, DE, D4, D7);
    XorEight(0x41b3ad27, 0x868f91c2, 0xc73c3ce5, D4, D1, DB, D3, DA, DD, D2, D7,
             D8, D6, D8, DF, D9, D1, DC, D2, DC, D7, D3, DC, D3, DC, DE, D5);
    XorEight(0xc4a2daed, 0x3c3ce5c7, 0xf89e3f2a, DC, D4, DA, D2, DD, DA, DE, DD,
             D3, DC, D3, DC, DE, D5, DC, D7, DF, D8, D9, DE, D3, DF, D2, DA);
    XorEight(0x9d5b16ef, 0x3f2af89e, 0xa271ee71, D9, DD, D5, DB, D1, D6, DE, DF,
             D3, DF, D2, DA, DF, D8, D9, DE, DA, D2, D7, D1, DE, DE, D7, D1);
    XorEight(0xbac3a48d, 0x738d138f, 0xc94eb702, DB, DA, DC, D3, DA, D4, D8, DD,
             D7, D3, D8, DD, D1, D3, D8, DF, DC, D9, D4, DE, DB, D7, D0, D2);
    XorEight(0x8c851b26, 0x94eb702c, 0x186e6b0a, D8, DC, D8, D5, D1, DB, D2, D6,
             D9, D4, DE, DB, D7, D0, D2, DC, D1, D8, D6, DE, D6, DB, D0, DA);
  }

  /** The exclusive ors of `final`. */
  lemma FinalXors()
    ensures Xor(0x186e6b0a, 0xc194779b) == 0xd9fa1c91
    ensures Xor(0x5cab28fc, 0xbc132c2c) == 0xe0b804d0
    ensures Xor(0xc194779b, 0x47569ef0) == 0x86c2e96b
    ensures Xor(0xbc132c2c, 0xa6343c2e) == 0x1a271002
    ensures Xor(0x47569ef0, 0xddf869ce) == 0x9aaef73e
    ensures Xor(0xa6343c2e, 0xbb285a51) == 0x1d1c667f
    ensures Xor(0xddf869ce, 0x0687f7b5) == 0xdb7f9e7b
  {
    hide Xor, Digit.Value;
    DigitValues();
    XorEight(0x186e6b0a, 0xc194779b, 0xd9fa1c91, D1, D8, D6, DE, D6, DB, D0, DA,
             DC, D1, D9, D4, D7, D7, D9, DB, DD, D9, DF, DA, D1, DC, D9, D1);
    XorEight(0x5cab28fc, 0xbc132c2c, 0xe0b804d0, D5, DC, DA, DB, D2, D8, DF, DC,
             DB, DC, D1, D3, D2, DC, D2, DC, DE, D0, DB, D8, D0, D4, DD, D0);
    XorEight(0xc194779b, 0x47569ef0, 0x86c2e96b, DC, D1, D9, D4, D7, D7, D9, DB,
             D4, D7, D5, D6, D9, DE, DF, D0, D8, D6, DC, D2, DE, D9, D6, DB);
    XorEight(0xbc132c2c, 0xa6343c2e, 0x1a271002, DB, DC, D1, D3, D2, DC, D2, DC,
             DA, D6, D3, D4, D3, DC, D2, DE, D1, DA, D2, D7, D1, D0, D0, D2);
    XorEight(0x47569ef0, 0xddf869ce, 0x9aaef73e, D4, D7, D5, D6, D9, DE, DF, D0,
             DD, DD, DF, D8, D6, D9, DC, DE, D9, DA, DA, DE, DF, D7, D3, DE);
    XorEight(0xa6343c2e, 0xbb285a51, 0x1d1c667f, DA, D6, D3, D4, D3, DC, D2, DE,
             DB, DB, D2, D8, D5, DA, D5, D1, D1, DD, D1, DC, D6, D6, D7, DF);
    XorEight(0xddf869ce, 0x0687f7b5, 0xdb7f9e7b, DD, DD, DF, D8, D6, D9, DC, DE,
             D0, D6, D8, D7, DF, D7, DB, D5, DD, DB, D7, DF, D9, DE, D7, DB);
  }

  lemma MixFirst()
    ensures MixLine(MixLine(MixLine(Triple(0x4b1a2467, 0x4bcdeb6e, 0x40112c64), 4), 6), 8)
         == Triple(0x95f95619, 0x5d3592fe, 0xf89e3f2a)
  {
    hide Xor, Pow2, MixLine, FinalLine;
    Powers();
    MixXors();
    MixLineTo(Triple(0x4b1a2467, 0x4bcdeb6e, 0x40112c64), 4, 0x10, 0x10000000, 0x0b08f803, 0x0112c644, 0x0a1a3e47,
              Triple(0x4bcdeb6e, 0x8bdf17d2, 0x0a1a3e47));
    MixLineTo(Triple(0x4bcdeb6e, 0x8bdf17d2, 0x0a1a3e47), 6, 0x40, 0x4000000, 0x41b3ad27, 0x868f91c2, 0xc73c3ce5,
              Triple(0x8bdf17d2, 0x95f95619, 0xc73c3ce5));
    MixLineTo(Triple(0x8bdf17d2, 0x95f95619, 0xc73c3ce5), 8, 0x100, 0x1000000, 0xc4a2daed, 0x3c3ce5c7, 0xf89e3f2a,
              Triple(0x95f95619, 0x5d3592fe, 0xf89e3f2a));
  }

  lemma MixSecond()
    ensures MixLine(MixLine(MixLine(Triple(0x95f95619, 0x5d3592fe, 0xf89e3f2a), 16), 19), 4)
         == Triple(0xf845c099, 0xc194779b, 0x186e6b0a)
  {
    hide Xor, Pow2, MixLine, FinalLine;
    Powers();
    MixXors();
    MixLineTo(Triple(0x95f95619, 0x5d3592fe, 0xf89e3f2a), 16, 0x10000, 0x10000, 0x9d5b16ef, 0x3f2af89e, 0xa271ee71,
              Triple(0x5d3592fe, 0x55d3d228, 0xa271ee71));
    MixLineTo(Triple(0x5d3592fe, 0x55d3d228, 0xa271ee71), 19, 0x80000, 0x2000, 0xbac3a48d, 0x738d138f, 0xc94eb702,
              Triple(0x55d3d228, 0xf845c099, 0xc94eb702));
    MixLineTo(Triple(0x55d3d228, 0xf845c099, 0xc94eb702), 4, 0x10, 0x10000000, 0x8c851b26, 0x94eb702c, 0x186e6b0a,
              Triple(0xf845c099, 0xc194779b, 0x186e6b0a));
  }

  lemma FinalFirst()
    ensures FinalLine(FinalLine(FinalLine(FinalLine(Triple(0x5cab28fc, 0xc194779b, 0x186e6b0a), 14), 11), 25), 16)
         == Triple(0xa6343c2e, 0xddf869ce, 0x47569ef0)
  {
    hide Xor, Pow2, MixLine, FinalLine;
    Powers();
    FinalXors();
    FinalLineTo(Triple(0x5cab28fc, 0xc194779b, 0x186e6b0a), 14, 0x4000, 0x40000, 0xd9fa1c91, 0x1de6f065,
                Triple(0xc194779b, 0xbc132c2c, 0x5cab28fc));
    FinalLineTo(Triple(0xc194779b, 0xbc132c2c, 0x5cab28fc), 11, 0x800, 0x200000, 0xe0b804d0, 0x996165e0,
                Triple(0xbc132c2c, 0x47569ef0, 0xc194779b));
    FinalLineTo(Triple(0xbc132c2c, 0x47569ef0, 0xc194779b), 25, 0x2000000, 0x80, 0x86c2e96b, 0xe08ead3d,
                Triple(0x47569ef0, 0xa6343c2e, 0xbc132c2c));
    FinalLineTo(Triple(0x47569ef0, 0xa6343c2e, 0xbc132c2c), 16, 0x10000, 0x10000, 0x1a271002, 0x3c2ea634,
                Triple(0xa6343c2e, 0xddf869ce, 0x47569ef0));
  }

  lemma FinalSecond()
    ensures FinalLine(FinalLine(FinalLine(Triple(0xa6343c2e, 0xddf869ce, 0x47569ef0), 4), 14), 24)
         == Triple(0x0687f7b5, 0x26791684, 0xbb285a51)
  {
    hide Xor, Pow2, MixLine, FinalLine;
    Powers();
    FinalXors();
    FinalLineTo(Triple(0xa6343c2e, 0xddf869ce, 0x47569ef0), 4, 0x10, 0x10000000, 0x9aaef73e, 0xdf869ced,
                Triple(0xddf869ce, 0xbb285a51, 0xa6343c2e));
    FinalLineTo(Triple(0xddf869ce, 0xbb285a51, 0xa6343c2e), 14, 0x4000, 0x40000, 0x1d1c667f, 0x16946eca,
                Triple(0xbb285a51, 0x0687f7b5, 0xddf869ce));
    FinalLineTo(Triple(0xbb285a51, 0x0687f7b5, 0xddf869ce), 24, 0x1000000, 0x100, 0xdb7f9e7b, 0xb50687f7,
                Triple(0x0687f7b5, 0x26791684, 0xbb285a51));
  }

  lemma Mixed()
    ensures MixOf(Triple(0x4b1a2467, 0x4bcdeb6e, 0x40112c64)) == Triple(0xf845c099, 0xc194779b, 0x186e6b0a)
  {
    hide MixLine;
    MixFirst();
    MixSecond();
  }

  lemma Finalized()
    ensures FinalOf(Triple(0x5cab28fc, 0xc194779b, 0x186e6b0a)) == Triple(0xbb285a51, 0x0687f7b5, 0x26791684)
  {
    hide FinalLine;
    FinalFirst();
    FinalSecond();
  }

  lemma KeyWords(key: seq<Byte>)
    requires key == [0x68, 0x65, 0x6c, 0x6c, 0x6f, 0x2c, 0x20, 0x6d, 0x65, 0x6d, 0x63, 0x61, 0x63, 0x68, 0x65, 0x64]
    ensures WordAt(Little, key, 0) == 0x6c6c6568 && WordAt(Little, key, 4) == 0x6d202c6f && WordAt(Little, key, 8) == 0x61636d65
    ensures WordAt(Little, key[12..], 0) == 0x64656863
    ensures WordAt(Little, key[12..], 4) == WordAt(Little, key[12..], 8) == 0
  {
    hide WordAt;
    WordTo(key, 0, 0x68, 0x65, 0x6c, 0x6c);
    WordTo(key, 4, 0x6f, 0x2c, 0x20, 0x6d);
    WordTo(key, 8, 0x65, 0x6d, 0x63, 0x61);
    WordTo(key[12..], 0, 0x63, 0x68, 0x65, 0x64);
    WordTo(key[12..], 4, 0, 0, 0, 0);
    WordTo(key[12..], 8, 0, 0, 0, 0);
  }

  lemma WordTo(key: seq<Byte>, i: nat, b0: Byte, b1: Byte, b2: Byte, b3: Byte)
    requires |key| >= i + 4 ==> key[i] == b0 && key[i + 1] == b1 && key[i + 2] == b2 && key[i + 3] == b3
    requires |key| < i + 4 ==> |key| <= i && b0 == b1 == b2 == b3 == 0
    ensures WordAt(Little, key, i) == Le32(b0, b1, b2, b3)
  {
    hide Le32;
  }

  lemma AddBlockTo(t: Triple, key: seq<Byte>, w0: Word, w1: Word, w2: Word, u: Triple)
    requires WordAt(Little, key, 0) == w0 && WordAt(Little, key, 4) == w1 && WordAt(Little, key, 8) == w2
    requires u.a == (t.a + w0) % 0x1_0000_0000 && u.b == (t.b + w1) % 0x1_0000_0000 && u.c == (t.c + w2) % 0x1_0000_0000
    ensures AddBlock(Little, t, key) == u
  {
    hide WordAt;
  }

  lemma Started()
    ensures Start(16) == Triple(0xdeadbeff, 0xdeadbeff, 0xdeadbeff)
  {
  }

  /** The hash of "hello, memcached", which takes one `mix` and a partial block. */
  lemma KnownHash(key: seq<Byte>)
    requires key == [0x68, 0x65, 0x6c, 0x6c, 0x6f, 0x2c, 0x20, 0x6d, 0x65, 0x6d, 0x63, 0x61, 0x63, 0x68, 0x65, 0x64]
    ensures Hash(Little, key) == 0x26791684
  {
    hide MixOf, FinalOf, AddBlock, Start, WordAt;
    KeyWords(key);
    Started();
    AddBlockTo(Triple(0xdeadbeff, 0xdeadbeff, 0xdeadbeff), key, 0x6c6c6568, 0x6d202c6f, 0x61636d65, Triple(0x4b1a2467, 0x4bcdeb6e, 0x40112c64));
    AddBlockTo(Triple(0xf845c099, 0xc194779b, 0x186e6b0a), key[12..], 0x64656863, 0, 0, Triple(0x5cab28fc, 0xc194779b, 0x186e6b0a));
    Mixed();
    assert Absorb(Little, Start(16), key) == Absorb(Little, Triple(0xf845c099, 0xc194779b, 0x186e6b0a), key[12..]);
    Finalized();
  }

  /** On a big-endian machine the key with its groups of four bytes reversed has that hash. */
  lemma KnownHashBig(key: seq<Byte>)
    requires key == [0x6c, 0x6c, 0x65, 0x68, 0x6d, 0x20, 0x2c, 0x6f, 0x61, 0x63, 0x6d, 0x65, 0x64, 0x65, 0x68, 0x63]
    ensures Hash(Big, key) == 0x26791684
  {
    hide Hash;
    BigIsReversedLittle(key);
    KnownHash(ReverseGroups(key));
  }
}
