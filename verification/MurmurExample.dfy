/** Murmur's hash of a particular key, worked out step by step: it fixes the constants and the order of the steps. */
module MurmurExample {
  import opened Bits
  import opened Words
  import opened XorDigits
  import opened Murmur

  lemma ScrambleTo(k: Word, m: Word, x: Word, z: Word)
    requires m == (k * 0xcc9e2d51) % 0x1_0000_0000 && x == m % 0x20000 * 0x8000 + m / 0x20000
    requires z == (x * 0x1b873593) % 0x1_0000_0000
    ensures Scramble(k) == z
  {
    hide Rotl32, Rotated, Pow2;
    Pow2Values();
    RotatedIs(m, 15, 0x8000, 0x20000);
  }

  lemma ChurnTo(x: Word, y: Word, z: Word)
    requires y == x % 0x80000 * 0x2000 + x / 0x80000 && z == (y * 5 + 0xe6546b64) % 0x1_0000_0000
    ensures Churn(x) == z
  {
    hide Rotl32, Rotated, Pow2;
    Pow2Values();
    RotatedIs(x, 13, 0x2000, 0x80000);
  }

  /** The exclusive ors that occur on the way. */
  lemma Xors()
    ensures Xor(0xef13efcd, 0x65be7dad) == 0x8aad9260
    ensures Xor(0x61d0c20d, 0x540a57b9) == 0x35da95b4
    ensures Xor(0x35da95b4, 0x0000000b) == 0x35da95bf
    ensures Xor(0x35da95bf, 0x000035da) == 0x35daa065
    ensures Xor(0xbaa7bc37, 0x0005d53d) == 0xbaa2690a
    ensures Xor(0xa3f88b12, 0x0000a3f8) == 0xa3f828ea
  {
    hide Xor, Digit.Value;
    DigitValues();
    XorEight(0xef13efcd, 0x65be7dad, 0x8aad9260, DE, DF, D1, D3, DE, DF, DC, DD,
             D6, D5, DB, DE, D7, DD, DA, DD, D8, DA, DA, DD, D9, D2, D6, D0);
    XorEight(0x61d0c20d, 0x540a57b9, 0x35da95b4, D6, D1, DD, D0, DC, D2, D0, DD,
             D5, D4, D0, DA, D5, D7, DB, D9, D3, D5, DD, DA, D9, D5, DB, D4);
    XorEight(0x35da95b4, 0x0000000b, 0x35da95bf, D3, D5, DD, DA, D9, D5, DB, D4,
             D0, D0, D0, D0, D0, D0, D0, DB, D3, D5, DD, DA, D9, D5, DB, DF);
    XorEight(0x35da95bf, 0x000035da, 0x35daa065, D3, D5, DD, DA, D9, D5, DB, DF,
             D0, D0, D0, D0, D3, D5, DD, DA, D3, D5, DD, DA, DA, D0, D6, D5);
    XorEight(0xbaa7bc37, 0x0005d53d, 0xbaa2690a, DB, DA, DA, D7, DB, DC, D3, D7,
             D0, D0, D0, D5, DD, D5, D3, DD, DB, DA, DA, D2, D6, D9, D0, DA);
    XorEight(0xa3f88b12, 0x0000a3f8, 0xa3f828ea, DA, D3, DF, D8, D8, DB, D1, D2,
             D0, D0, D0, D0, DA, D3, DF, D8, DA, D3, DF, D8, D2, D8, DE, DA);
  }

  lemma Folded()
    ensures Absorb(Absorb(0, 0x6c6c6568), 0x6d202c6f) == 0x61d0c20d
  {
    hide Scramble, Churn, Xor;
    ScrambleTo(0x6c6c6568, 0xd24f5de8, 0xaef46927, 0xa0ae7465);
    XorZero(0xa0ae7465);
    ChurnTo(0xa0ae7465, 0xce8cb415, 0xef13efcd);
    ScrambleTo(0x6d202c6f, 0x0f7f921f, 0xc90f87bf, 0x65be7dad);
    Xors();
    ChurnTo(0x8aad9260, 0xb24c1155, 0x61d0c20d);
  }

  lemma TailAndLength()
    ensures Xor32(Xor32(0x61d0c20d, Scramble(0x00636d65)), 11) == 0x35da95bf
  {
    hide Scramble, Xor;
    ScrambleTo(0x00636d65, 0x9a065df5, 0x2efacd03, 0x540a57b9);
    Xors();
  }

  lemma Finalized()
    ensures Fmix32(0x35da95bf) == 0xa3f828ea
  {
    hide Xor, Shr, Pow2;
    Pow2Values();
    ShrDivides(0x35da95bf, 16);
    ShrDivides(0xbaa7bc37, 13);
    ShrDivides(0xa3f88b12, 16);
    Xors();
    assert Mul(0x35daa065, 0x85ebca6b) == 0xbaa7bc37 && Mul(0xbaa2690a, 0xc2b2ae35) == 0xa3f88b12;
  }

  lemma KeyWords(key: seq<Byte>)
    requires key == [0x68, 0x65, 0x6c, 0x6c, 0x6f, 0x2c, 0x20, 0x6d, 0x65, 0x6d, 0x63]
    ensures Blocks(key) == [0x6c6c6568, 0x6d202c6f] && TailWord(key) == 0x00636d65
  {
  }

  lemma FoldTwo(v: Word, w: Word)
    ensures Fold(0, [v, w]) == Absorb(Absorb(0, v), w)
  {
    hide Absorb;
    assert [v, w][..1] == [v] && [v][..0] == [];
    assert Fold(0, [v]) == Absorb(0, v);
  }

  /** The hash of "hello, memc", a key of two blocks and three bytes. */
  lemma KnownHash(key: seq<Byte>)
    requires key == [0x68, 0x65, 0x6c, 0x6c, 0x6f, 0x2c, 0x20, 0x6d, 0x65, 0x6d, 0x63]
    ensures Hash(key) == 0xa3f828ea
  {
    hide Absorb, Scramble, Fmix32, Blocks, TailWord, Fold, Xor32;
    KeyWords(key);
    FoldTwo(0x6c6c6568, 0x6d202c6f);
    Folded();
    TailAndLength();
    Finalized();
  }
}
