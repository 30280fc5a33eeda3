/** The read strategies of `jenkins_hash`, each proved to compute the same hash of the key's bytes. */
module JenkinsPaths {
  import opened Bits
  import opened Words
  import opened JenkinsSpec

  // ---------------------------------------------------------------- memory

  /** Memory as a byte at every address; the key is `n` bytes from address `p`. */
  type Memory = nat -> Byte

  function KeyAt(mem: Memory, p: nat, n: nat): (key: seq<Byte>)
    ensures |key| == n
  {
    seq(n, i requires 0 <= i < n => mem(p + i))
  }

  /** The addresses `lo <= a < hi` of the key that is being hashed. */
  datatype Extent = Extent(lo: nat, hi: nat)

  /** A byte read, allowed only inside the key. */
  function Load8(mem: Memory, x: Extent, a: nat): Byte
    requires x.lo <= a < x.hi
  {
    mem(a)
  }

  /** A little-endian 16-bit read, allowed only when aligned and inside the key. */
  function Load16(mem: Memory, x: Extent, a: nat): (v: Word)
    requires a % 2 == 0 && x.lo <= a && a + 2 <= x.hi
    ensures v < 0x10000
  {
    mem(a) + 0x100 * mem(a + 1)
  }

  /** A 32-bit read, allowed only when aligned and inside the key. */
  function Load32(e: Endian, mem: Memory, x: Extent, a: nat): Word
    requires a % 4 == 0 && x.lo <= a && a + 4 <= x.hi
  {
    Assemble(e, mem(a), mem(a + 1), mem(a + 2), mem(a + 3))
  }

  /** A 32-bit read that may run past the key, allowed only when aligned and when it holds at least one key byte. */
  function Load32Over(e: Endian, mem: Memory, x: Extent, a: nat): Word
    requires a % 4 == 0 && x.lo <= a < x.hi
  {
    Assemble(e, mem(a), mem(a + 1), mem(a + 2), mem(a + 3))
  }

  // ---------------------------------------------------------------- the macros

  method Mix(a0: Word, b0: Word, c0: Word) returns (a: Word, b: Word, c: Word)
    ensures Triple(a, b, c) == MixOf(Triple(a0, b0, c0))
  {
    hide Add, Sub, Xor32, Rot, Rotated;
    a, b, c := a0, b0, c0;
    a := Sub(a, c);  a := Xor32(a, Rot(c, 4));   c := Add(c, b);
    b := Sub(b, a);  b := Xor32(b, Rot(a, 6));   a := Add(a, c);
    c := Sub(c, b);  c := Xor32(c, Rot(b, 8));   b := Add(b, a);
    a := Sub(a, c);  a := Xor32(a, Rot(c, 16));  c := Add(c, b);
    b := Sub(b, a);  b := Xor32(b, Rot(a, 19));  a := Add(a, c);
    c := Sub(c, b);  c := Xor32(c, Rot(b, 4));   b := Add(b, a);
  }

  method Final(a0: Word, b0: Word, c0: Word) returns (a: Word, b: Word, c: Word)
    ensures Triple(a, b, c) == FinalOf(Triple(a0, b0, c0))
  {
    hide Add, Sub, Xor32, Rot, Rotated;
    a, b, c := a0, b0, c0;
    c := Xor32(c, b);  c := Sub(c, Rot(b, 14));
    a := Xor32(a, c);  a := Sub(a, Rot(c, 11));
    b := Xor32(b, a);  b := Sub(b, Rot(a, 25));
    c := Xor32(c, b);  c := Sub(c, Rot(b, 16));
    a := Xor32(a, c);  a := Sub(a, Rot(c, 4));
    b := Xor32(b, a);  b := Sub(b, Rot(a, 14));
    c := Xor32(c, b);  c := Sub(c, Rot(b, 24));
  }

  // ---------------------------------------------------------------- all but the last block

  /** What the loops leave behind: `length` bytes at `k`, between 1 and 12 of them unless the key was empty. */
  ghost predicate LastBlockLeft(e: Endian, mem: Memory, p: nat, n: nat, t: Triple, k: nat, length: nat) {
    && k + length == p + n
    && (k - p) % 12 == 0
    && (n == 0 ==> length == 0 && t == Start(0))
    && (n > 0 ==> 0 < length <= 12)
    && Absorb(e, Start(n), KeyAt(mem, p, n)) == AddBlock(e, t, KeyAt(mem, k, length))
  }

  /** The loop invariant: hashing what is left from the current state is hashing the whole key. */
  ghost predicate Underway(e: Endian, mem: Memory, p: nat, n: nat, t: Triple, k: nat, length: nat) {
    && p <= k
    && k + length == p + n
    && (k - p) % 12 == 0
    && (n == 0 ==> length == 0 && t == Start(0))
    && (n > 0 ==> 0 < length)
    && Absorb(e, Start(n), KeyAt(mem, p, n)) == Absorb(e, t, KeyAt(mem, k, length))
  }

  lemma BlockStep(e: Endian, mem: Memory, p: nat, n: nat, t: Triple, k: nat, length: nat)
    requires Underway(e, mem, p, n, t, k, length) && length > 12
    ensures Underway(e, mem, p, n, MixOf(AddBlock(e, t, KeyAt(mem, k, length))), k + 12, length - 12)
  {
    hide AddBlock, MixOf, Start;
    assert KeyAt(mem, k, length)[12..] == KeyAt(mem, k + 12, length - 12);
  }

  /** The three words at `k`, for a block that is not the last. */
  lemma BlockWords(e: Endian, mem: Memory, k: nat, length: nat)
    requires length > 12
    ensures WordAt(e, KeyAt(mem, k, length), 0) == Assemble(e, mem(k), mem(k + 1), mem(k + 2), mem(k + 3))
    ensures WordAt(e, KeyAt(mem, k, length), 4) == Assemble(e, mem(k + 4), mem(k + 5), mem(k + 6), mem(k + 7))
    ensures WordAt(e, KeyAt(mem, k, length), 8) == Assemble(e, mem(k + 8), mem(k + 9), mem(k + 10), mem(k + 11))
  {
    hide Assemble;
  }

  /** The loop of the aligned 32-bit path, the same text in both versions. */
  method WordLoop(e: Endian, mem: Memory, p: nat, n: nat)
    returns (a: Word, b: Word, c: Word, k: nat, length: nat)
    requires p % 4 == 0
    ensures LastBlockLeft(e, mem, p, n, Triple(a, b, c), k, length) && k % 4 == 0
  {
    hide Add, Low32, Absorb, WordAt, MixOf, Assemble, KeyAt;
    a := Add(0xdeadbeef, Low32(n));
    b, c := a, a;
    k, length := p, n;
    assert Underway(e, mem, p, n, Triple(a, b, c), k, length);
    while length > 12
      invariant Underway(e, mem, p, n, Triple(a, b, c), k, length) && k % 4 == 0
    {
      BlockStep(e, mem, p, n, Triple(a, b, c), k, length);
      BlockWords(e, mem, k, length);
      a := Add(a, Load32(e, mem, Extent(p, p + n), k));
      b := Add(b, Load32(e, mem, Extent(p, p + n), k + 4));
      c := Add(c, Load32(e, mem, Extent(p, p + n), k + 8));
      a, b, c := Mix(a, b, c);
      length := length - 12;
      k := k + 12;
    }
    LoopLeft(e, mem, p, n, Triple(a, b, c), k, length);
  }

  lemma LoopLeft(e: Endian, mem: Memory, p: nat, n: nat, t: Triple, k: nat, length: nat)
    requires Underway(e, mem, p, n, t, k, length) && length <= 12
    ensures LastBlockLeft(e, mem, p, n, t, k, length)
  {
    hide AddBlock, MixOf, Start, KeyAt;
  }

  /** The loop of the 16-bit path. */
  method HalfLoop(mem: Memory, p: nat, n: nat)
    returns (a: Word, b: Word, c: Word, k: nat, length: nat)
    requires p % 2 == 0
    ensures LastBlockLeft(Little, mem, p, n, Triple(a, b, c), k, length) && k % 2 == 0
  {
    hide Add, Low32, Absorb, WordAt, MixOf, Assemble, KeyAt, Shl32, Load16;
    a := Add(0xdeadbeef, Low32(n));
    b, c := a, a;
    k, length := p, n;
    assert Underway(Little, mem, p, n, Triple(a, b, c), k, length);
    while length > 12
      invariant Underway(Little, mem, p, n, Triple(a, b, c), k, length) && k % 2 == 0
    {
      var x := Extent(p, p + n);
      BlockStep(Little, mem, p, n, Triple(a, b, c), k, length);
      BlockWords(Little, mem, k, length);
      TwoHalves(mem, x, k);
      TwoHalves(mem, x, k + 4);
      TwoHalves(mem, x, k + 8);
      a := Add(a, Add(Load16(mem, x, k), Shl32(Load16(mem, x, k + 2), 16)));
      b := Add(b, Add(Load16(mem, x, k + 4), Shl32(Load16(mem, x, k + 6), 16)));
      c := Add(c, Add(Load16(mem, x, k + 8), Shl32(Load16(mem, x, k + 10), 16)));
      a, b, c := Mix(a, b, c);
      length := length - 12;
      k := k + 12;
    }
    LoopLeft(Little, mem, p, n, Triple(a, b, c), k, length);
  }

  /** Two 16-bit reads make the little-endian word. */
  lemma TwoHalves(mem: Memory, x: Extent, a: nat)
    requires a % 2 == 0 && x.lo <= a && a + 4 <= x.hi
    ensures Add(Load16(mem, x, a), Shl32(Load16(mem, x, a + 2), 16))
         == Assemble(Little, mem(a), mem(a + 1), mem(a + 2), mem(a + 3))
  {
    hide Shl32;
    HalfShift(Load16(mem, x, a + 2));
  }

  /** The loop of the bytewise path; the weights of the bytes depend on the version. */
  method ByteLoop(e: Endian, mem: Memory, p: nat, n: nat)
    returns (a: Word, b: Word, c: Word, k: nat, length: nat)
    ensures LastBlockLeft(e, mem, p, n, Triple(a, b, c), k, length)
  {
    hide Add, Low32, Absorb, WordAt, MixOf, Assemble, KeyAt, Shl32;
    a := Add(0xdeadbeef, Low32(n));
    b, c := a, a;
    k, length := p, n;
    assert Underway(e, mem, p, n, Triple(a, b, c), k, length);
    while length > 12
      invariant Underway(e, mem, p, n, Triple(a, b, c), k, length)
    {
      var x := Extent(p, p + n);
      BlockStep(e, mem, p, n, Triple(a, b, c), k, length);
      BlockWords(e, mem, k, length);
      if e.Little? {
        a := AddLittle(mem, x, k, a);
        b := AddLittle(mem, x, k + 4, b);
        c := AddLittle(mem, x, k + 8, c);
      } else {
        a := AddBig(mem, x, k, a);
        b := AddBig(mem, x, k + 4, b);
        c := AddBig(mem, x, k + 8, c);
      }
      a, b, c := Mix(a, b, c);
      length := length - 12;
      k := k + 12;
    }
    LoopLeft(e, mem, p, n, Triple(a, b, c), k, length);
  }

  /** Four bytes added one by one, the first with weight 1. */
  method AddLittle(mem: Memory, x: Extent, k: nat, v0: Word) returns (v: Word)
    requires x.lo <= k && k + 4 <= x.hi
    ensures v == Add(v0, Assemble(Little, mem(k), mem(k + 1), mem(k + 2), mem(k + 3)))
  {
    hide Add, Shl32;
    v := Add(v0, Load8(mem, x, k));
    v := Add(v, Shl32(Load8(mem, x, k + 1), 8));
    v := Add(v, Shl32(Load8(mem, x, k + 2), 16));
    v := Add(v, Shl32(Load8(mem, x, k + 3), 24));
    ByteShifts(mem(k + 1));
    ByteShifts(mem(k + 2));
    ByteShifts(mem(k + 3));
    SumChain(v0, mem(k), 0x100 * mem(k + 1), 0x10000 * mem(k + 2), 0x1000000 * mem(k + 3));
  }

  /** Four bytes added one by one, the first with weight 2^24. */
  method AddBig(mem: Memory, x: Extent, k: nat, v0: Word) returns (v: Word)
    requires x.lo <= k && k + 4 <= x.hi
    ensures v == Add(v0, Assemble(Big, mem(k), mem(k + 1), mem(k + 2), mem(k + 3)))
  {
    hide Add, Shl32;
    v := Add(v0, Shl32(Load8(mem, x, k), 24));
    v := Add(v, Shl32(Load8(mem, x, k + 1), 16));
    v := Add(v, Shl32(Load8(mem, x, k + 2), 8));
    v := Add(v, Load8(mem, x, k + 3));
    ByteShifts(mem(k));
    ByteShifts(mem(k + 1));
    ByteShifts(mem(k + 2));
    SumChain(v0, 0x1000000 * mem(k), 0x10000 * mem(k + 1), 0x100 * mem(k + 2), mem(k + 3));
  }

  // ---------------------------------------------------------------- the last block

  /** Byte `i` of the last block, zero past its end. */
  function TailByte(mem: Memory, k: nat, length: nat, i: nat): Byte {
    if i < length then mem(k + i) else 0
  }

  function TailPart(e: Endian, mem: Memory, k: nat, length: nat, i: nat): Word {
    Assemble(e, TailByte(mem, k, length, i), TailByte(mem, k, length, i + 1),
             TailByte(mem, k, length, i + 2), TailByte(mem, k, length, i + 3))
  }

  lemma TailWords(e: Endian, mem: Memory, k: nat, length: nat, i: nat)
    ensures WordAt(e, KeyAt(mem, k, length), i) == TailPart(e, mem, k, length, i)
  {
    hide Assemble;
  }

  /** What every tail must do: add the zero-padded last block. */
  ghost predicate TailAdded(e: Endian, mem: Memory, k: nat, length: nat, t: Triple, u: Triple) {
    u == AddBlock(e, t, KeyAt(mem, k, length))
  }

  lemma TailByWords(e: Endian, mem: Memory, k: nat, length: nat, t: Triple, u: Triple)
    requires u.a == Add(t.a, TailPart(e, mem, k, length, 0))
    requires u.b == Add(t.b, TailPart(e, mem, k, length, 4))
    requires u.c == Add(t.c, TailPart(e, mem, k, length, 8))
    ensures TailAdded(e, mem, k, length, t, u)
  {
    hide Add, TailPart, WordAt;
    TailWords(e, mem, k, length, 0);
    TailWords(e, mem, k, length, 4);
    TailWords(e, mem, k, length, 8);
  }

  /** The masks of the two versions, by the number of key bytes they keep. */
  function Mask(e: Endian, kept: nat): Word
    requires 1 <= kept <= 3
  {
    match e
    case Little => if kept == 3 then 0xffffff else if kept == 2 then 0xffff else 0xff
    case Big => if kept == 3 then 0xffffff00 else if kept == 2 then 0xffff0000 else 0xff000000
  }

  /** Masking a word that runs past the key keeps its key bytes and clears the rest. */
  lemma MaskedWord(e: Endian, b0: Byte, b1: Byte, b2: Byte, b3: Byte)
    ensures And32(Assemble(e, b0, b1, b2, b3), Mask(e, 3)) == Assemble(e, b0, b1, b2, 0)
    ensures And32(Assemble(e, b0, b1, b2, b3), Mask(e, 2)) == Assemble(e, b0, b1, 0, 0)
    ensures And32(Assemble(e, b0, b1, b2, b3), Mask(e, 1)) == Assemble(e, b0, 0, 0, 0)
  {
    hide And32, Le32;
    match e {
      case Little => MaskedLow(b0, b1, b2, b3);
      case Big => MaskedHigh(b3, b2, b1, b0);
    }
  }

  lemma Remainders(b0: Byte, b1: Byte, b2: Byte, b3: Byte)
    ensures Le32(b0, b1, b2, b3) % 0x1000000 == Le32(b0, b1, b2, 0)
    ensures Le32(b0, b1, b2, b3) % 0x10000 == Le32(b0, b1, 0, 0)
    ensures Le32(b0, b1, b2, b3) % 0x100 == Le32(b0, 0, 0, 0)
    ensures Le32(b0, b1, b2, b3) - Le32(b0, b1, b2, 0) == Le32(0, 0, 0, b3)
    ensures Le32(b0, b1, b2, b3) - Le32(b0, b1, 0, 0) == Le32(0, 0, b2, b3)
    ensures Le32(b0, b1, b2, b3) - Le32(b0, 0, 0, 0) == Le32(0, b1, b2, b3)
  {
    var w := Le32(b0, b1, b2, b3);
    DivUnique(w, 0x1000000, b3, b0 + 0x100 * b1 + 0x10000 * b2);
    DivUnique(w, 0x10000, b2 + 0x100 * b3, b0 + 0x100 * b1);
    DivUnique(w, 0x100, b1 + 0x100 * b2 + 0x10000 * b3, b0);
  }

  lemma MaskedLow(b0: Byte, b1: Byte, b2: Byte, b3: Byte)
    ensures And32(Le32(b0, b1, b2, b3), 0xffffff) == Le32(b0, b1, b2, 0)
    ensures And32(Le32(b0, b1, b2, b3), 0xffff) == Le32(b0, b1, 0, 0)
    ensures And32(Le32(b0, b1, b2, b3), 0xff) == Le32(b0, 0, 0, 0)
  {
    Pow2Values();
    hide And, Pow2, Le32;
    var w := Le32(b0, b1, b2, b3);
    Remainders(b0, b1, b2, b3);
    LowMask(w, 24);
    LowMask(w, 16);
    LowMask(w, 8);
  }

  lemma MaskedHigh(b0: Byte, b1: Byte, b2: Byte, b3: Byte)
    ensures And32(Le32(b0, b1, b2, b3), 0xffffff00) == Le32(0, b1, b2, b3)
    ensures And32(Le32(b0, b1, b2, b3), 0xffff0000) == Le32(0, 0, b2, b3)
    ensures And32(Le32(b0, b1, b2, b3), 0xff000000) == Le32(0, 0, 0, b3)
  {
    Pow2Values();
    HighOnesValues();
    hide And, Pow2, HighOnes, Le32;
    var w := Le32(b0, b1, b2, b3);
    Remainders(b0, b1, b2, b3);
    HighMask(w, 24, 8);
    HighMask(w, 16, 16);
    HighMask(w, 8, 24);
  }

  lemma HighOnesValues()
    ensures HighOnes(24, 8) == 0xffffff00 && HighOnes(16, 16) == 0xffff0000 && HighOnes(8, 24) == 0xff000000
  {
    Pow2Values();
    assert HighOnes(24, 4) == 0xffffff0;
    assert HighOnes(16, 8) == 0xffff00;
    assert HighOnes(8, 8) == 0xff00;
    assert HighOnes(8, 16) == 0xff0000;
  }

  /** A word of the last block as the masked path reads it: nothing, the whole word, or a masked one. */
  lemma MaskedPart(e: Endian, mem: Memory, x: Extent, k: nat, length: nat, i: nat, v: Word)
    requires k % 4 == 0 && i % 4 == 0 && x.lo <= k && x.hi == k + length
    ensures length <= i ==> v == Add(v, TailPart(e, mem, k, length, i))
    ensures length >= i + 4 ==> Load32Over(e, mem, x, k + i) == TailPart(e, mem, k, length, i)
    ensures i < length < i + 4 ==>
      And32(Load32Over(e, mem, x, k + i), Mask(e, length - i)) == TailPart(e, mem, k, length, i)
  {
    if length <= i {
      assert TailPart(e, mem, k, length, i) == 0;
      AddZero(v);
    } else {
      hide And32, Assemble, Mask;
      MaskedWord(e, mem(k + i), mem(k + i + 1), mem(k + i + 2), mem(k + i + 3));
    }
  }

  /** The switch of the masked 32-bit path; `k[i]` is at address `k + 4 * i`. */
  method MaskedTail(e: Endian, mem: Memory, x: Extent, k: nat, length: nat, a0: Word, b0: Word, c0: Word)
    returns (a: Word, b: Word, c: Word)
    requires k % 4 == 0 && x.lo <= k && x.hi == k + length && 0 < length <= 12
    ensures TailAdded(e, mem, k, length, Triple(a0, b0, c0), Triple(a, b, c))
  {
    hide Add, And32, TailPart, Load32Over, TailAdded, Mask, Assemble;
    MaskedPart(e, mem, x, k, length, 0, a0);
    MaskedPart(e, mem, x, k, length, 4, b0);
    MaskedPart(e, mem, x, k, length, 8, c0);
    a, b, c := a0, b0, c0;
    match length {
      case 12 => c := Add(c, Load32Over(e, mem, x, k + 8));
      case 11 => c := Add(c, And32(Load32Over(e, mem, x, k + 8), Mask(e, 3)));
      case 10 => c := Add(c, And32(Load32Over(e, mem, x, k + 8), Mask(e, 2)));
      case 9 => c := Add(c, And32(Load32Over(e, mem, x, k + 8), Mask(e, 1)));
      case 8 =>
      case 7 => b := Add(b, And32(Load32Over(e, mem, x, k + 4), Mask(e, 3)));
      case 6 => b := Add(b, And32(Load32Over(e, mem, x, k + 4), Mask(e, 2)));
      case 5 => b := Add(b, And32(Load32Over(e, mem, x, k + 4), Mask(e, 1)));
      case 4 =>
      case 3 => a := Add(a, And32(Load32Over(e, mem, x, k), Mask(e, 3)));
      case 2 => a := Add(a, And32(Load32Over(e, mem, x, k), Mask(e, 2)));
      case 1 => a := Add(a, And32(Load32Over(e, mem, x, k), Mask(e, 1)));
    }
    if length >= 8 {
      b := Add(b, Load32Over(e, mem, x, k + 4));
    }
    if length >= 4 {
      a := Add(a, Load32Over(e, mem, x, k));
    }
    TailByWords(e, mem, k, length, Triple(a0, b0, c0), Triple(a, b, c));
  }

  /** How far the byte at address offset `i` of a word is shifted. */
  function Weight(e: Endian, i: nat): nat
    requires i < 4
  {
    match e
    case Little => 8 * i
    case Big => 24 - 8 * i
  }

  /** The byte at address offset `i` of a word, shifted to its place. */
  function Placed(e: Endian, b: Byte, i: nat): Word
    requires i < 4
  {
    Shl32(b, Weight(e, i))
  }

  lemma PlacedValue(e: Endian, b: Byte)
    ensures Placed(e, b, 0) == if e.Little? then b else 0x1000000 * b
    ensures Placed(e, b, 1) == if e.Little? then 0x100 * b else 0x10000 * b
    ensures Placed(e, b, 2) == if e.Little? then 0x10000 * b else 0x100 * b
    ensures Placed(e, b, 3) == if e.Little? then 0x1000000 * b else b
  {
    hide Shl32;
    ByteShifts(b);
    NoShift(b);
  }

  /** Adding the bytes of a word from the last address down adds the word; bytes that are missing count as zero. */
  lemma SummedBytes(e: Endian, v: Word, b0: Byte, b1: Byte, b2: Byte, b3: Byte)
    ensures Add(Add(Add(Add(v, Placed(e, b3, 3)), Placed(e, b2, 2)), Placed(e, b1, 1)), Placed(e, b0, 0))
         == Add(v, Assemble(e, b0, b1, b2, b3))
    ensures Add(Add(Add(v, Placed(e, b2, 2)), Placed(e, b1, 1)), Placed(e, b0, 0)) == Add(v, Assemble(e, b0, b1, b2, 0))
    ensures Add(Add(v, Placed(e, b1, 1)), Placed(e, b0, 0)) == Add(v, Assemble(e, b0, b1, 0, 0))
    ensures Add(v, Placed(e, b0, 0)) == Add(v, Assemble(e, b0, 0, 0, 0))
    ensures v == Add(v, Assemble(e, 0, 0, 0, 0))
  {
    hide Add, Placed;
    PlacedValue(e, b0);
    PlacedValue(e, b1);
    PlacedValue(e, b2);
    PlacedValue(e, b3);
    SumChain(v, Placed(e, b3, 3), Placed(e, b2, 2), Placed(e, b1, 1), Placed(e, b0, 0));
    SumChain(v, 0, Placed(e, b2, 2), Placed(e, b1, 1), Placed(e, b0, 0));
    SumChain(v, 0, 0, Placed(e, b1, 1), Placed(e, b0, 0));
    SumChain(v, 0, 0, 0, Placed(e, b0, 0));
    AddZero(v);
  }

  /** One word of the last block, added byte by byte. */
  lemma SummedPart(e: Endian, mem: Memory, k: nat, length: nat, i: nat, v: Word)
    ensures var u0, u1, u2, u3 := Placed(e, mem(k + i), 0), Placed(e, mem(k + i + 1), 1),
                                  Placed(e, mem(k + i + 2), 2), Placed(e, mem(k + i + 3), 3);
            var w := Add(v, TailPart(e, mem, k, length, i));
            && (length >= i + 4 ==> Add(Add(Add(Add(v, u3), u2), u1), u0) == w)
            && (length == i + 3 ==> Add(Add(Add(v, u2), u1), u0) == w)
            && (length == i + 2 ==> Add(Add(v, u1), u0) == w)
            && (length == i + 1 ==> Add(v, u0) == w)
            && (length <= i ==> v == w)
  {
    hide Add, Placed, Assemble;
    SummedBytes(e, v, mem(k + i), mem(k + i + 1), mem(k + i + 2), mem(k + i + 3));
  }

  lemma NoShift(b: Byte)
    ensures Shl32(b, 0) == b
  {
  }

  /** The switch of the bytewise path: every case falls through. */
  method ByteTail(e: Endian, mem: Memory, x: Extent, k: nat, length: nat, a0: Word, b0: Word, c0: Word)
    returns (a: Word, b: Word, c: Word)
    requires x.lo <= k && x.hi == k + length && 0 < length <= 12
    ensures TailAdded(e, mem, k, length, Triple(a0, b0, c0), Triple(a, b, c))
  {
    hide Add, Placed, TailPart, TailAdded;
    SummedPart(e, mem, k, length, 0, a0);
    SummedPart(e, mem, k, length, 4, b0);
    SummedPart(e, mem, k, length, 8, c0);
    a, b, c := a0, b0, c0;
    if length >= 12 { c := Add(c, Placed(e, Load8(mem, x, k + 11), 3)); }
    if length >= 11 { c := Add(c, Placed(e, Load8(mem, x, k + 10), 2)); }
    if length >= 10 { c := Add(c, Placed(e, Load8(mem, x, k + 9), 1)); }
    if length >= 9 { c := Add(c, Placed(e, Load8(mem, x, k + 8), 0)); }
    assert c == Add(c0, TailPart(e, mem, k, length, 8));
    if length >= 8 { b := Add(b, Placed(e, Load8(mem, x, k + 7), 3)); }
    if length >= 7 { b := Add(b, Placed(e, Load8(mem, x, k + 6), 2)); }
    if length >= 6 { b := Add(b, Placed(e, Load8(mem, x, k + 5), 1)); }
    if length >= 5 { b := Add(b, Placed(e, Load8(mem, x, k + 4), 0)); }
    assert b == Add(b0, TailPart(e, mem, k, length, 4));
    if length >= 4 { a := Add(a, Placed(e, Load8(mem, x, k + 3), 3)); }
    if length >= 3 { a := Add(a, Placed(e, Load8(mem, x, k + 2), 2)); }
    if length >= 2 { a := Add(a, Placed(e, Load8(mem, x, k + 1), 1)); }
    a := Add(a, Placed(e, Load8(mem, x, k), 0));
    assert a == Add(a0, TailPart(e, mem, k, length, 0));
    TailByWords(e, mem, k, length, Triple(a0, b0, c0), Triple(a, b, c));
  }

  /** The switch compiled for VALGRIND: whole words where the key fills them, single bytes at its end. */
  method ValgrindTail(e: Endian, mem: Memory, x: Extent, k: nat, length: nat, a0: Word, b0: Word, c0: Word)
    returns (a: Word, b: Word, c: Word)
    requires k % 4 == 0 && x.lo <= k && x.hi == k + length && 0 < length <= 12
    ensures TailAdded(e, mem, k, length, Triple(a0, b0, c0), Triple(a, b, c))
  {
    hide Add, Placed, TailPart, TailAdded, Load32, Assemble;
    SummedPart(e, mem, k, length, 0, a0);
    SummedPart(e, mem, k, length, 4, b0);
    SummedPart(e, mem, k, length, 8, c0);
    WholePart(e, mem, x, k, length, 0);
    WholePart(e, mem, x, k, length, 4);
    WholePart(e, mem, x, k, length, 8);
    a, b, c := a0, b0, c0;
    if length == 12 {
      c := Add(c, Load32(e, mem, x, k + 8));
      b := Add(b, Load32(e, mem, x, k + 4));
      a := Add(a, Load32(e, mem, x, k));
    } else if length >= 8 {
      if length >= 11 { c := Add(c, Placed(e, Load8(mem, x, k + 10), 2)); }
      if length >= 10 { c := Add(c, Placed(e, Load8(mem, x, k + 9), 1)); }
      if length >= 9 { c := Add(c, Placed(e, Load8(mem, x, k + 8), 0)); }
      b := Add(b, Load32(e, mem, x, k + 4));
      a := Add(a, Load32(e, mem, x, k));
    } else if length >= 4 {
      if length >= 7 { b := Add(b, Placed(e, Load8(mem, x, k + 6), 2)); }
      if length >= 6 { b := Add(b, Placed(e, Load8(mem, x, k + 5), 1)); }
      if length >= 5 { b := Add(b, Placed(e, Load8(mem, x, k + 4), 0)); }
      a := Add(a, Load32(e, mem, x, k));
    } else {
      if length >= 3 { a := Add(a, Placed(e, Load8(mem, x, k + 2), 2)); }
      if length >= 2 { a := Add(a, Placed(e, Load8(mem, x, k + 1), 1)); }
      a := Add(a, Placed(e, Load8(mem, x, k), 0));
    }
    TailByWords(e, mem, k, length, Triple(a0, b0, c0), Triple(a, b, c));
  }

  lemma WholePart(e: Endian, mem: Memory, x: Extent, k: nat, length: nat, i: nat)
    requires k % 4 == 0 && i % 4 == 0 && x.lo <= k && x.hi == k + length
    ensures length >= i + 4 ==> Load32(e, mem, x, k + i) == TailPart(e, mem, k, length, i)
  {
    hide Assemble;
  }

  /** Two 16-bit reads added to a state word. */
  function Halves(mem: Memory, x: Extent, a: nat): Word
    requires a % 2 == 0 && x.lo <= a && a + 4 <= x.hi
  {
    Add(Load16(mem, x, a), Shl32(Load16(mem, x, a + 2), 16))
  }

  /** A word of the last block as the 16-bit path reads it. */
  lemma HalvedPart(mem: Memory, x: Extent, k: nat, length: nat, i: nat, v: Word)
    requires k % 2 == 0 && i % 4 == 0 && x.lo <= k && x.hi == k + length
    ensures length >= i + 4 ==> Halves(mem, x, k + i) == TailPart(Little, mem, k, length, i)
    ensures length == i + 3 ==>
      Add(Add(v, Shl32(mem(k + i + 2), 16)), Load16(mem, x, k + i)) == Add(v, TailPart(Little, mem, k, length, i))
    ensures length == i + 2 ==> Load16(mem, x, k + i) == TailPart(Little, mem, k, length, i)
    ensures length == i + 1 ==> mem(k + i) == TailPart(Little, mem, k, length, i)
    ensures length <= i ==> v == Add(v, TailPart(Little, mem, k, length, i))
  {
    hide Add, Shl32;
    if length >= i + 4 {
      TwoHalves(mem, x, k + i);
    } else if length == i + 3 {
      ByteShifts(mem(k + i + 2));
      SumChain(v, 0, 0, 0x10000 * mem(k + i + 2), Load16(mem, x, k + i));
    } else if length <= i {
      AddZero(v);
    }
  }

  /** The switch of the 16-bit path. */
  method HalfTail(mem: Memory, x: Extent, k: nat, length: nat, a0: Word, b0: Word, c0: Word)
    returns (a: Word, b: Word, c: Word)
    requires k % 2 == 0 && x.lo <= k && x.hi == k + length && 0 < length <= 12
    ensures TailAdded(Little, mem, k, length, Triple(a0, b0, c0), Triple(a, b, c))
  {
    hide Add, Shl32, TailPart, TailAdded, Load16, Halves;
    HalvedPart(mem, x, k, length, 0, a0);
    HalvedPart(mem, x, k, length, 4, b0);
    HalvedPart(mem, x, k, length, 8, c0);
    a, b, c := a0, b0, c0;
    if length == 12 {
      c := Add(c, Halves(mem, x, k + 8));
      b := Add(b, Halves(mem, x, k + 4));
      a := Add(a, Halves(mem, x, k));
    } else if length >= 10 {
      if length == 11 { c := Add(c, Shl32(Load8(mem, x, k + 10), 16)); }
      c := Add(c, Load16(mem, x, k + 8));
      b := Add(b, Halves(mem, x, k + 4));
      a := Add(a, Halves(mem, x, k));
    } else if length >= 8 {
      if length == 9 { c := Add(c, Load8(mem, x, k + 8)); }
      b := Add(b, Halves(mem, x, k + 4));
      a := Add(a, Halves(mem, x, k));
    } else if length >= 6 {
      if length == 7 { b := Add(b, Shl32(Load8(mem, x, k + 6), 16)); }
      b := Add(b, Load16(mem, x, k + 4));
      a := Add(a, Halves(mem, x, k));
    } else if length >= 4 {
      if length == 5 { b := Add(b, Load8(mem, x, k + 4)); }
      a := Add(a, Halves(mem, x, k));
    } else if length >= 2 {
      if length == 3 { a := Add(a, Shl32(Load8(mem, x, k + 2), 16)); }
      a := Add(a, Load16(mem, x, k));
    } else {
      a := Add(a, Load8(mem, x, k));
    }
    TailByWords(Little, mem, k, length, Triple(a0, b0, c0), Triple(a, b, c));
  }

  // ---------------------------------------------------------------- the two functions

  lemma Finished(e: Endian, mem: Memory, p: nat, n: nat, t: Triple, k: nat, length: nat, u: Triple)
    requires LastBlockLeft(e, mem, p, n, t, k, length)
    requires length > 0 ==> TailAdded(e, mem, k, length, t, u)
    ensures Hash(e, KeyAt(mem, p, n)) == if length == 0 then t.c else FinalOf(u).c
  {
    hide Add, Absorb, AddBlock, FinalOf;
  }

  /** The little-endian `jenkins_hash`: the address picks the path, the bytes alone decide the hash. */
  method JenkinsLittle(mem: Memory, p: nat, n: nat, valgrind: bool) returns (h: Word)
    ensures h == Hash(Little, KeyAt(mem, p, n))
  {
    hide Add, Absorb, AddBlock, FinalOf, KeyAt, Start, Hash, TailAdded;
    var a, b, c, k, length;
    var x := Extent(p, p + n);
    ghost var t;
    if p % 4 == 0 {
      a, b, c, k, length := WordLoop(Little, mem, p, n);
      t := Triple(a, b, c);
      if length == 0 {
        Finished(Little, mem, p, n, t, k, length, t);
        return c;
      }
      if valgrind {
        a, b, c := ValgrindTail(Little, mem, x, k, length, a, b, c);
      } else {
        a, b, c := MaskedTail(Little, mem, x, k, length, a, b, c);
      }
    } else if p % 2 == 0 {
      a, b, c, k, length := HalfLoop(mem, p, n);
      t := Triple(a, b, c);
      if length == 0 {
        Finished(Little, mem, p, n, t, k, length, t);
        return c;
      }
      a, b, c := HalfTail(mem, x, k, length, a, b, c);
    } else {
      a, b, c, k, length := ByteLoop(Little, mem, p, n);
      t := Triple(a, b, c);
      if length == 0 {
        Finished(Little, mem, p, n, t, k, length, t);
        return c;
      }
      a, b, c := ByteTail(Little, mem, x, k, length, a, b, c);
    }
    Finished(Little, mem, p, n, t, k, length, Triple(a, b, c));
    a, b, c := Final(a, b, c);
    h := c;
  }

  /** The big-endian `jenkins_hash`. */
  method JenkinsBig(mem: Memory, p: nat, n: nat, valgrind: bool) returns (h: Word)
    ensures h == Hash(Big, KeyAt(mem, p, n))
  {
    hide Add, Absorb, AddBlock, FinalOf, KeyAt, Start, Hash, TailAdded;
    var a, b, c, k, length;
    var x := Extent(p, p + n);
    ghost var t;
    if p % 4 == 0 {
      a, b, c, k, length := WordLoop(Big, mem, p, n);
      t := Triple(a, b, c);
      if length == 0 {
        Finished(Big, mem, p, n, t, k, length, t);
        return c;
      }
      if valgrind {
        a, b, c := ValgrindTail(Big, mem, x, k, length, a, b, c);
      } else {
        a, b, c := MaskedTail(Big, mem, x, k, length, a, b, c);
      }
    } else {
      a, b, c, k, length := ByteLoop(Big, mem, p, n);
      t := Triple(a, b, c);
      if length == 0 {
        Finished(Big, mem, p, n, t, k, length, t);
        return c;
      }
      a, b, c := ByteTail(Big, mem, x, k, length, a, b, c);
    }
    Finished(Big, mem, p, n, t, k, length, Triple(a, b, c));
    a, b, c := Final(a, b, c);
    h := c;
  }
}
