/** MurmurHash3 x86_32 without a seed (murmur3_hash.c). */
module Murmur {
  import opened Bits
  import opened Words

  // ---------------------------------------------------------------- the arithmetic

  /** What a block goes through before it is xored into the state. */
  function Scramble(k: Word): Word {
    Mul(Rotl32(Mul(k, 0xcc9e2d51), 15), 0x1b873593)
  }

  /** What the state goes through after the block is xored into it. */
  function Churn(x: Word): Word {
    Add(Mul(Rotl32(x, 13), 5), 0xe6546b64)
  }

  /** One pass of the body loop. */
  function Absorb(h: Word, k: Word): Word {
    Churn(Xor32(h, Scramble(k)))
  }

  function XorShift(h: Word, r: nat): Word {
    Xor32(h, Shr32(h, r))
  }

  function Fmix32(h: Word): Word {
    XorShift(Mul(XorShift(Mul(XorShift(h, 16), 0x85ebca6b), 13), 0xc2b2ae35), 16)
  }

  // ---------------------------------------------------------------- the specification

  /** Absorb `ws` into `h`, first word first. */
  function Fold(h: Word, ws: seq<Word>): Word {
    if ws == [] then h else Absorb(Fold(h, ws[..|ws| - 1]), ws[|ws| - 1])
  }

  /** The little-endian word at byte offset `at`. */
  function BlockAt(key: seq<Byte>, at: nat): Word
    requires at + 4 <= |key|
  {
    Le32(key[at], key[at + 1], key[at + 2], key[at + 3])
  }

  function Blocks(key: seq<Byte>): (ws: seq<Word>)
    ensures |ws| == |key| / 4
  {
    seq(|key| / 4, i requires 0 <= i < |key| / 4 => BlockAt(key, 4 * i))
  }

  /** The last `|key| % 4` bytes as a zero-padded little-endian word. */
  function TailWord(key: seq<Byte>): Word {
    var t := 4 * (|key| / 4);
    Le32(ByteOrZero(key, t), ByteOrZero(key, t + 1), ByteOrZero(key, t + 2), 0)
  }

  /** The state when the finalizer is entered. */
  function State(key: seq<Byte>): Word {
    Xor32(Xor32(Fold(0, Blocks(key)), Scramble(TailWord(key))), Low32(|key|))
  }

  /** The hash as a fold over the key's words in forward order, tail and length last. */
  function Hash(key: seq<Byte>): Word {
    Fmix32(State(key))
  }

  // ---------------------------------------------------------------- the code

  method Fmix(h0: Word) returns (h: Word)
    ensures h == Fmix32(h0)
  {
    hide Mul, Xor32, Shr32;
    h := h0;
    h := Xor32(h, Shr32(h, 16));
    h := Mul(h, 0x85ebca6b);
    h := Xor32(h, Shr32(h, 13));
    h := Mul(h, 0xc2b2ae35);
    h := Xor32(h, Shr32(h, 16));
  }

  ghost predicate SeenOnce(seen: multiset<int>, n: int) {
    forall p :: seen[p] == if 0 <= p < n then 1 else 0
  }

  /** A byte load, which counts as one read of its offset. */
  method LoadByte(key: seq<Byte>, at: nat, ghost before: multiset<int>) returns (b: Byte, ghost seen: multiset<int>)
    requires at < |key|
    ensures b == key[at] && seen == before + multiset{at}
  {
    b, seen := key[at], before + multiset{at};
  }

  /** `getblock32`: the four bytes of a block, each counted as read once. */
  method LoadBlock(key: seq<Byte>, at: nat, ghost before: multiset<int>) returns (k: Word, ghost seen: multiset<int>)
    requires at + 4 <= |key|
    ensures k == BlockAt(key, at) && seen == before + multiset{at, at + 1, at + 2, at + 3}
  {
    hide Le32;
    var b0, b1, b2, b3;
    b0, seen := LoadByte(key, at, before);
    b1, seen := LoadByte(key, at + 1, seen);
    b2, seen := LoadByte(key, at + 2, seen);
    b3, seen := LoadByte(key, at + 3, seen);
    k := Le32(b0, b1, b2, b3);
  }

  /** The body loop; `seen` counts how often each byte offset of the key was loaded. */
  method Body(key: seq<Byte>) returns (h1: Word, ghost seen: multiset<int>)
    ensures h1 == Fold(0, Blocks(key))
    ensures SeenOnce(seen, 4 * (|key| / 4))
  {
    hide Mul, Xor32, Rotl32, Rotated, Le32, Add;
    var nblocks := |key| / 4;
    h1 := 0;
    seen := multiset{};
    var i: int := -nblocks;
    while i != 0
      invariant -nblocks <= i <= 0
      invariant h1 == Fold(0, Blocks(key)[..nblocks + i])
      invariant SeenOnce(seen, 4 * (nblocks + i))
      decreases -i
    {
      var at := 4 * nblocks + 4 * i;
      assert Blocks(key)[..nblocks + i + 1][..nblocks + i] == Blocks(key)[..nblocks + i];
      var k1;
      k1, seen := LoadBlock(key, at, seen);
      k1 := Mul(k1, 0xcc9e2d51);
      k1 := Rotl32(k1, 15);
      k1 := Mul(k1, 0x1b873593);
      h1 := Xor32(h1, k1);
      h1 := Rotl32(h1, 13);
      h1 := Add(Mul(h1, 5), 0xe6546b64);
      i := i + 1;
    }
    assert Blocks(key)[..nblocks] == Blocks(key);
  }

  /** The fall-through switch up to the assembled word; `t` is where the tail starts. */
  method GatherTail(key: seq<Byte>, t: nat, ghost before: multiset<int>) returns (k1: Word, ghost seen: multiset<int>)
    requires t == 4 * (|key| / 4) && SeenOnce(before, t)
    ensures k1 == TailWord(key)
    ensures SeenOnce(seen, |key|)
  {
    hide Xor32, Shl32, Le32;
    k1, seen := 0, before;
    var rest := |key| - t;
    XoredTail(ByteOrZero(key, t), ByteOrZero(key, t + 1), ByteOrZero(key, t + 2));
    var b;
    if rest >= 3 {
      b, seen := LoadByte(key, t + 2, seen);
      k1 := Xor32(k1, Shl32(b, 16));
    }
    if rest >= 2 {
      b, seen := LoadByte(key, t + 1, seen);
      k1 := Xor32(k1, Shl32(b, 8));
    }
    if rest >= 1 {
      b, seen := LoadByte(key, t, seen);
      k1 := Xor32(k1, b);
    } else {
      assert TailWord(key) == 0 by { ZeroWord(); }
    }
  }

  lemma ZeroWord()
    ensures Le32(0, 0, 0, 0) == 0
  {
  }

  /** The whole function: every byte of the key is read exactly once, and no other. */
  method MurmurHash3(key: seq<Byte>) returns (h1: Word, ghost seen: multiset<int>)
    requires |key| < 0x8000_0000
    ensures h1 == Hash(key)
    ensures SeenOnce(seen, |key|)
  {
    hide Mul, Xor32, Rotl32, Rotated, Fmix32, Low32, Le32, Blocks, Fold, SeenOnce, ByteOrZero;
    h1, seen := Body(key);

    var k1;
    k1, seen := GatherTail(key, 4 * (|key| / 4), seen);
    if |key| % 4 != 0 {
      k1 := Mul(k1, 0xcc9e2d51);
      k1 := Rotl32(k1, 15);
      k1 := Mul(k1, 0x1b873593);
      h1 := Xor32(h1, k1);
    } else {
      assert TailWord(key) == Le32(0, 0, 0, 0) by { EmptyTail(key); }
      NoTail(h1);
    }

    h1 := Xor32(h1, Low32(|key|));
    h1 := Fmix(h1);
  }

  lemma EmptyTail(key: seq<Byte>)
    requires |key| % 4 == 0
    ensures TailWord(key) == Le32(0, 0, 0, 0)
  {
    hide Le32;
  }

  /** Xoring the shifted tail bytes into zero, highest first, assembles the tail word. */
  lemma XoredTail(b0: Byte, b1: Byte, b2: Byte)
    ensures Xor32(Xor32(Xor32(0, Shl32(b2, 16)), Shl32(b1, 8)), b0) == Le32(b0, b1, b2, 0)
    ensures Xor32(Xor32(0, Shl32(b1, 8)), b0) == Le32(b0, b1, 0, 0)
    ensures Xor32(0, b0) == Le32(b0, 0, 0, 0)
  {
    Pow2Values();
    hide Xor, Shl, Shl32;
    ByteShifts(b2);
    ByteShifts(b1);
    XorZero(0x10000 * b2);
    XorZero(0x100 * b1);
    XorZero(b0);
    XorAbove(b2, 0x100 * b1, 16, 0x10000);
    XorAbove(0x100 * b2 + b1, b0, 8, 0x100);
    XorAbove(b1, b0, 8, 0x100);
  }

  lemma XorAbove(hi: nat, lo: nat, n: nat, p: nat)
    requires p == Pow2(n) && lo < p
    ensures Xor(hi * p, lo) == hi * p + lo
  {
    hide *;
    Disjoint(hi, lo, n);
    ShlMultiplies(hi, n);
  }

  lemma NoTail(h: Word)
    ensures Xor32(h, Scramble(Le32(0, 0, 0, 0))) == h
  {
    ScrambleZero();
    hide Scramble;
    XorZero(h);
  }

  lemma ScrambleZero()
    ensures Scramble(0) == 0
  {
    hide Rotl32, Pow2, Shl, Shr;
    ShlMultiplies(0, 15);
    ShrAtMost(0, 17);
    assert Rotl32(0, 15) == 0;
  }

  // ---------------------------------------------------------------- every step can be undone

  function Unscramble(x: Word): Word {
    Mul(Rotl32(Mul(x, 0x56ed309b), 17), 0xdee13bb1)
  }

  function Unchurn(t: Word): Word {
    Rotl32(Mul(Sub(t, 0xe6546b64), 0xcccccccd), 19)
  }

  function UndoShift13(a: Word): Word {
    Xor32(Xor32(a, Shr32(a, 13)), Shr32(a, 26))
  }

  function UndoFmix(t: Word): Word {
    XorShift(Mul(UndoShift13(Mul(XorShift(t, 16), 0x7ed1b41d)), 0xa5cb9243), 16)
  }

  /** Each multiplier is odd, so it has an inverse modulo 2^32. */
  lemma UndoMul(x: Word)
    ensures Mul(Mul(x, 0xcc9e2d51), 0xdee13bb1) == x && Mul(Mul(x, 0xdee13bb1), 0xcc9e2d51) == x
    ensures Mul(Mul(x, 0x1b873593), 0x56ed309b) == x && Mul(Mul(x, 0x56ed309b), 0x1b873593) == x
    ensures Mul(Mul(x, 5), 0xcccccccd) == x && Mul(Mul(x, 0xcccccccd), 5) == x
    ensures Mul(Mul(x, 0x85ebca6b), 0xa5cb9243) == x && Mul(Mul(x, 0xa5cb9243), 0x85ebca6b) == x
    ensures Mul(Mul(x, 0xc2b2ae35), 0x7ed1b41d) == x && Mul(Mul(x, 0x7ed1b41d), 0xc2b2ae35) == x
  {
    Inverses(x, 0xcc9e2d51, 0xdee13bb1);
    Inverses(x, 0x1b873593, 0x56ed309b);
    Inverses(x, 5, 0xcccccccd);
    Inverses(x, 0x85ebca6b, 0xa5cb9243);
    Inverses(x, 0xc2b2ae35, 0x7ed1b41d);
  }

  lemma Inverses(x: Word, c: Word, d: Word)
    requires (c * d) % 0x1_0000_0000 == 1
    ensures Mul(Mul(x, c), d) == x && Mul(Mul(x, d), c) == x
  {
    MulThenMul(x, c, d);
    assert d * c == c * d;
    MulThenMul(x, d, c);
  }

  lemma MulThenMul(x: Word, c: Word, d: Word)
    requires (c * d) % 0x1_0000_0000 == 1
    ensures Mul(Mul(x, c), d) == x
  {
    var q := (x * c) / 0x1_0000_0000;
    var u := (c * d) / 0x1_0000_0000;
    calc {
      Mul(x, c) * d;
      (x * c - 0x1_0000_0000 * q) * d;
      (x * c) * d - 0x1_0000_0000 * (q * d);
      { assert (x * c) * d == x * (c * d); }
      x * (0x1_0000_0000 * u + 1) - 0x1_0000_0000 * (q * d);
      0x1_0000_0000 * (x * u - q * d) + x;
    }
    DivUnique(Mul(x, c) * d, 0x1_0000_0000, x * u - q * d, x);
  }

  lemma UndoXorShift16(x: Word)
    ensures XorShift(XorShift(x, 16), 16) == x
  {
    hide Xor, Shr;
    XorShifts(x, Shr(x, 16), 16);
    ShrShr(x, 16, 16);
    ShrVanishes(x, 32);
    XorZero(Shr(x, 16));
    XorCancels(x, Shr(x, 16));
  }

  lemma ShrVanishes(x: Word, n: nat)
    requires n >= 32
    ensures Shr(x, n) == 0
  {
    Pow2Values();
    ShrDivides(x, 32);
    ShrShr(x, 32, n - 32);
    ShrAtMost(0, n - 32);
  }

  /** With `s = x >> 13` and `u = x >> 26`, the shifted copies of `x ^ s` are `s ^ u` and `u`. */
  lemma UndoXorShift13(x: Word)
    ensures UndoShift13(XorShift(x, 13)) == x
    ensures XorShift(UndoShift13(x), 13) == x
  {
    hide Xor, Shr;
    var s, u := Shr(x, 13), Shr(x, 26);
    ShrShr(x, 13, 13);
    ShrShr(x, 13, 26);
    ShrShr(x, 26, 13);
    ShrVanishes(x, 39);
    XorZero(u);
    XorZero(Xor(s, u));

    var y := Xor(x, s);
    XorShifts(x, s, 13);
    XorShifts(x, s, 26);
    assert Shr(y, 13) == Xor(s, u) && Shr(y, 26) == u;
    XorAssociates(y, Xor(s, u), u);
    XorCancels(s, u);
    XorCancels(x, s);

    var z := Xor(Xor(x, s), u);
    XorShifts(Xor(x, s), u, 13);
    assert Shr(z, 13) == Xor(s, u);
    XorAssociates(x, s, u);
    XorCancels(x, Xor(s, u));
  }

  lemma ScrambleBijective(x: Word)
    ensures Unscramble(Scramble(x)) == x
    ensures Scramble(Unscramble(x)) == x
  {
    hide Mul, Rotl32, Rotated;
    UndoMul(Rotl32(Mul(x, 0xcc9e2d51), 15));
    RotateBack(Mul(x, 0xcc9e2d51), 15);
    UndoMul(x);
    UndoMul(Rotl32(Mul(x, 0x56ed309b), 17));
    RotateBack(Mul(x, 0x56ed309b), 17);
  }

  lemma ChurnBijective(x: Word)
    ensures Unchurn(Churn(x)) == x
    ensures Churn(Unchurn(x)) == x
  {
    hide Mul, Rotl32, Rotated, Add, Sub;
    AddSub(Mul(Rotl32(x, 13), 5), 0xe6546b64);
    AddSub(x, 0xe6546b64);
    UndoMul(Rotl32(x, 13));
    RotateBack(x, 13);
    UndoMul(Sub(x, 0xe6546b64));
    RotateBack(Mul(Sub(x, 0xe6546b64), 0xcccccccd), 19);
  }

  /** The finalizer is a permutation of the 32-bit words. */
  lemma FmixBijective(h: Word)
    ensures UndoFmix(Fmix32(h)) == h
    ensures Fmix32(UndoFmix(h)) == h
  {
    hide Mul, XorShift, UndoShift13;
    var a := XorShift(h, 16);
    var b := XorShift(Mul(a, 0x85ebca6b), 13);
    UndoXorShift16(Mul(b, 0xc2b2ae35));
    UndoMul(b);
    UndoXorShift13(Mul(a, 0x85ebca6b));
    UndoMul(a);
    UndoXorShift16(h);
    var c := UndoShift13(Mul(a, 0x7ed1b41d));
    UndoXorShift16(Mul(c, 0xa5cb9243));
    UndoMul(c);
    UndoXorShift13(Mul(a, 0x7ed1b41d));
  }

  /** With the block fixed, the state before a round is a function of the state after it, and conversely. */
  lemma AbsorbBijectiveInState(h: Word, k: Word, t: Word)
    ensures Xor32(Unchurn(Absorb(h, k)), Scramble(k)) == h
    ensures Absorb(Xor32(Unchurn(t), Scramble(k)), k) == t
  {
    hide Scramble, Churn, Unchurn;
    ChurnBijective(Xor32(h, Scramble(k)));
    ChurnBijective(t);
    XorCancels(h, Scramble(k));
    XorCancels(Unchurn(t), Scramble(k));
  }

  /** With the state fixed, the block is a function of the state after the round, and conversely. */
  lemma AbsorbBijectiveInBlock(h: Word, k: Word, t: Word)
    ensures Unscramble(Xor32(Unchurn(Absorb(h, k)), h)) == k
    ensures Absorb(h, Unscramble(Xor32(Unchurn(t), h))) == t
  {
    hide Scramble, Unscramble, Churn, Unchurn;
    ChurnBijective(Xor32(h, Scramble(k)));
    ChurnBijective(t);
    XorCancels(Scramble(k), h);
    XorCancels(Unchurn(t), h);
    ScrambleBijective(k);
    ScrambleBijective(Xor32(Unchurn(t), h));
  }

  // ---------------------------------------------------------------- one block decides the hash

  /** The block at index `j` that makes the fold of `ws` end in `t`. */
  function BlockForFold(ws: seq<Word>, j: nat, t: Word): Word
    requires j < |ws|
  {
    var last := |ws| - 1;
    if j == last then Unscramble(Xor32(Unchurn(t), Fold(0, ws[..last])))
    else BlockForFold(ws[..last], j, Xor32(Unchurn(t), Scramble(ws[last])))
  }

  lemma {:induction false} FoldBijective(ws: seq<Word>, j: nat, t: Word)
    requires j < |ws|
    ensures Fold(0, ws[j := BlockForFold(ws, j, t)]) == t
    ensures BlockForFold(ws, j, Fold(0, ws)) == ws[j]
  {
    hide Scramble, Unscramble, Unchurn, Absorb, Xor32;
    var last := |ws| - 1;
    var w := BlockForFold(ws, j, t);
    if j == last {
      assert ws[j := w][..last] == ws[..last];
      AbsorbBijectiveInBlock(Fold(0, ws[..last]), ws[j], t);
    } else {
      assert ws[j := w][..last] == ws[..last][j := w];
      FoldBijective(ws[..last], j, Xor32(Unchurn(t), Scramble(ws[last])));
      AbsorbBijectiveInState(Fold(0, ws[..last]), ws[last], t);
    }
  }

  /** The wanted block does not depend on what stands in its place. */
  lemma {:induction false} BlockForFoldIgnores(ws: seq<Word>, j: nat, w: Word, t: Word)
    requires j < |ws|
    ensures BlockForFold(ws[j := w], j, t) == BlockForFold(ws, j, t)
  {
    hide Scramble, Unscramble, Unchurn, Fold, Xor32;
    var last := |ws| - 1;
    if j == last {
      assert ws[j := w][..last] == ws[..last];
    } else {
      assert ws[j := w][..last] == ws[..last][j := w];
      BlockForFoldIgnores(ws[..last], j, w, Xor32(Unchurn(t), Scramble(ws[last])));
    }
  }

  /** `key` with its `j`-th aligned block replaced by the bytes of `w`. */
  function WithBlock(key: seq<Byte>, j: nat, w: Word): (r: seq<Byte>)
    requires j < |key| / 4
    ensures |r| == |key|
  {
    key[..4 * j] + [ByteOf(w, 0), ByteOf(w, 1), ByteOf(w, 2), ByteOf(w, 3)] + key[4 * j + 4..]
  }

  lemma BlocksOfWithBlock(key: seq<Byte>, j: nat, w: Word)
    requires j < |key| / 4
    ensures Blocks(WithBlock(key, j, w)) == Blocks(key)[j := w]
    ensures TailWord(WithBlock(key, j, w)) == TailWord(key)
  {
    hide Le32, ByteOf;
    Le32OfBytes(w);
    assert forall i :: 0 <= i < |key| / 4 ==> Blocks(WithBlock(key, j, w))[i] == Blocks(key)[j := w][i];
  }

  /** The one value of block `j` that gives the key the hash `t`, all other bytes kept. */
  function BlockForHash(key: seq<Byte>, j: nat, t: Word): Word
    requires j < |key| / 4
  {
    BlockForFold(Blocks(key), j, Xor32(Xor32(UndoFmix(t), Low32(|key|)), Scramble(TailWord(key))))
  }

  lemma XorUndone(f: Word, s: Word, n: Word)
    ensures Xor32(Xor32(Xor32(Xor32(f, s), n), n), s) == f
  {
    XorCancels(Xor(f, s), n);
    XorCancels(f, s);
  }

  /**
   * For a key of any length with all other bytes fixed, the map from one aligned block to the hash is a
   * bijection on 32-bit words: every hash value is reached, and by exactly one block.
   */
  lemma BlockToHashBijective(key: seq<Byte>, j: nat, t: Word, w: Word)
    requires j < |key| / 4
    ensures Hash(WithBlock(key, j, BlockForHash(key, j, t))) == t
    ensures BlockForHash(key, j, Hash(WithBlock(key, j, w))) == w
  {
    hide Scramble, Fmix32, UndoFmix, Fold, BlockForFold, TailWord, Low32, WithBlock, Xor32, Blocks;
    var s, n := Scramble(TailWord(key)), Low32(|key|);
    FoldBijective(Blocks(key), j, Xor32(Xor32(UndoFmix(t), n), s));
    BlocksOfWithBlock(key, j, BlockForHash(key, j, t));
    XorUndone(UndoFmix(t), n, s);
    FmixBijective(t);

    var ws := Blocks(key)[j := w];
    BlocksOfWithBlock(key, j, w);
    FmixBijective(State(WithBlock(key, j, w)));
    XorUndone(Fold(0, ws), s, n);
    FoldBijective(ws, j, 0);
    BlockForFoldIgnores(Blocks(key), j, w, Fold(0, ws));
  }

  /** Equally long, different, and equal outside the `j`-th aligned group of four bytes; the last group may be partial. */
  predicate DifferOnlyInGroup(x: seq<Byte>, y: seq<Byte>, j: nat) {
    |x| == |y| && x != y && forall p :: 0 <= p < |x| && p / 4 != j ==> x[p] == y[p]
  }

  /** Equal-length keys that differ in one aligned block, or only in the final 1 to 3 bytes, never collide. */
  lemma OneGroupNeverCollides(x: seq<Byte>, y: seq<Byte>, j: nat)
    requires DifferOnlyInGroup(x, y, j)
    ensures Hash(x) != Hash(y)
  {
    hide Hash, TailWord, Le32, ByteOf, BlockForHash;
    if j < |x| / 4 {
      ReadBack(x, j);
      ReadBack(y, j);
      assert WithBlock(x, j, BlockAt(y, 4 * j)) == WithBlock(y, j, BlockAt(y, 4 * j));
      BlockToHashBijective(x, j, 0, BlockAt(x, 4 * j));
      BlockToHashBijective(x, j, 0, BlockAt(y, 4 * j));
    } else {
      TailsDiffer(x, y, j);
      TailNeverCollides(x, y);
    }
  }

  lemma ReadBack(key: seq<Byte>, j: nat)
    requires j < |key| / 4
    ensures WithBlock(key, j, BlockAt(key, 4 * j)) == key
  {
    hide Le32, ByteOf;
    BytesOfLe32(key[4 * j], key[4 * j + 1], key[4 * j + 2], key[4 * j + 3]);
  }

  lemma TailsDiffer(x: seq<Byte>, y: seq<Byte>, j: nat)
    requires DifferOnlyInGroup(x, y, j) && j >= |x| / 4
    ensures Blocks(x) == Blocks(y)
    ensures TailWord(x) != TailWord(y)
  {
    hide Le32;
    var t := 4 * (|x| / 4);
    if TailWord(x) == TailWord(y) {
      Le32Injective(ByteOrZero(x, t), ByteOrZero(x, t + 1), ByteOrZero(x, t + 2), 0,
                    ByteOrZero(y, t), ByteOrZero(y, t + 1), ByteOrZero(y, t + 2), 0);
      assert false;
    }
  }

  lemma TailNeverCollides(x: seq<Byte>, y: seq<Byte>)
    requires |x| == |y| && Blocks(x) == Blocks(y) && TailWord(x) != TailWord(y)
    ensures Hash(x) != Hash(y)
  {
    hide Scramble, Unscramble, Fmix32, UndoFmix, Fold, TailWord, Low32, Blocks, Xor;
    FmixBijective(State(x));
    FmixBijective(State(y));
    ScrambleBijective(TailWord(x));
    ScrambleBijective(TailWord(y));
    var f, n := Fold(0, Blocks(x)), Low32(|x|);
    XorCancels(Xor(f, Scramble(TailWord(x))), n);
    XorCancels(Xor(f, Scramble(TailWord(y))), n);
    XorCancels(Scramble(TailWord(x)), f);
    XorCancels(Scramble(TailWord(y)), f);
  }

  /** One group is the sharp bound: change the first block of a longer key at will and a second one restores the hash. */
  lemma TwoBlocksCollide(key: seq<Byte>, v: Word) returns (other: seq<Byte>)
    requires |key| >= 8 && v != BlockAt(key, 0)
    ensures |other| == |key| && BlockAt(other, 0) == v && other[8..] == key[8..]
    ensures Hash(other) == Hash(key)
  {
    hide Hash, BlockForHash, Le32, ByteOf;
    var moved := WithBlock(key, 0, v);
    other := WithBlock(moved, 1, BlockForHash(moved, 1, Hash(key)));
    BlockToHashBijective(moved, 1, Hash(key), 0);
    Le32OfBytes(v);
  }

  lemma HashOfEmpty()
    ensures Hash([]) == 0
  {
    hide Scramble, Shr, Xor;
    ScrambleZero();
    XorZero(0);
    ShrAtMost(0, 16);
    ShrAtMost(0, 13);
    assert XorShift(0, 16) == 0 && XorShift(0, 13) == 0 && Mul(0, 0x85ebca6b) == 0 && Mul(0, 0xc2b2ae35) == 0;
    assert TailWord([]) == 0 && Fold(0, Blocks([])) == 0 && State([]) == 0;
  }

  // ---------------------------------------------------------------- how a key grows

  /** What the key has put into the state before its length and the finalizer. */
  function Absorbed(key: seq<Byte>): Word {
    Xor32(UndoFmix(Hash(key)), |key| % 0x1_0000_0000)
  }

  lemma AbsorbedIs(key: seq<Byte>)
    ensures Absorbed(key) == Xor32(Fold(0, Blocks(key)), Scramble(TailWord(key)))
    ensures |key| % 4 == 0 ==> Absorbed(key) == Fold(0, Blocks(key))
  {
    hide Scramble, Fmix32, UndoFmix, Fold, Blocks, Xor, Le32;
    FmixBijective(State(key));
    XorCancels(Xor(Fold(0, Blocks(key)), Scramble(TailWord(key))), Low32(|key|));
    NoTail(Fold(0, Blocks(key)));
  }

  lemma BlocksOfAppend(key: seq<Byte>, more: seq<Byte>)
    requires |key| % 4 == 0 && 1 <= |more| <= 4
    ensures |more| == 4 ==> Blocks(key + more) == Blocks(key) + [BlockAt(more, 0)]
    ensures |more| < 4 ==> Blocks(key + more) == Blocks(key)
    ensures |more| < 4 ==>
              TailWord(key + more) == Le32(more[0], ByteOrZero(more, 1), ByteOrZero(more, 2), 0)
  {
    hide Le32;
  }

  lemma FoldAppend(ws: seq<Word>, w: Word)
    ensures Fold(0, ws + [w]) == Absorb(Fold(0, ws), w)
  {
    hide Absorb;
    assert (ws + [w])[..|ws|] == ws;
  }

  lemma GrowByBlock(key: seq<Byte>, block: seq<Byte>, w: Word)
    requires |key| % 4 == 0 && |block| == 4 && w == BlockAt(block, 0)
    ensures Absorbed(key + block) == Churn(Xor32(Absorbed(key), Scramble(w)))
  {
    hide Scramble, Churn, Fold, Blocks, Absorbed, Xor32, BlockAt, TailWord;
    AbsorbedIs(key);
    AbsorbedIs(key + block);
    BlocksOfAppend(key, block);
    FoldAppend(Blocks(key), w);
  }

  lemma GrowByTail(key: seq<Byte>, tail: seq<Byte>, w: Word)
    requires |key| % 4 == 0 && 1 <= |tail| <= 3 && w == Le32(tail[0], ByteOrZero(tail, 1), ByteOrZero(tail, 2), 0)
    ensures Absorbed(key + tail) == Xor32(Absorbed(key), Scramble(w))
  {
    hide Scramble, Fold, Blocks, Absorbed, Xor32, TailWord, Le32, ByteOrZero;
    AbsorbedIs(key);
    AbsorbedIs(key + tail);
    BlocksOfAppend(key, tail);
  }

  /** Four more bytes after whole blocks: their little-endian word goes through one round on top of the key so far. */
  lemma AppendBlock(key: seq<Byte>, b0: Byte, b1: Byte, b2: Byte, b3: Byte)
    requires |key| % 4 == 0
    ensures Absorbed(key + [b0, b1, b2, b3])
         == Churn(Xor32(Absorbed(key), Scramble(b0 + 0x100 * b1 + 0x10000 * b2 + 0x1000000 * b3)))
  {
    hide Scramble, Churn, Absorbed, Xor32;
    GrowByBlock(key, [b0, b1, b2, b3], b0 + 0x100 * b1 + 0x10000 * b2 + 0x1000000 * b3);
  }

  /** One to three more bytes after whole blocks are scrambled as one word, with zeros in the missing places. */
  lemma AppendTail(key: seq<Byte>, b0: Byte, b1: Byte, b2: Byte)
    requires |key| % 4 == 0
    ensures Absorbed(key + [b0]) == Xor32(Absorbed(key), Scramble(b0))
    ensures Absorbed(key + [b0, b1]) == Xor32(Absorbed(key), Scramble(b0 + 0x100 * b1))
    ensures Absorbed(key + [b0, b1, b2]) == Xor32(Absorbed(key), Scramble(b0 + 0x100 * b1 + 0x10000 * b2))
  {
    hide Scramble, Absorbed, Xor32;
    GrowByTail(key, [b0], b0);
    GrowByTail(key, [b0, b1], b0 + 0x100 * b1);
    GrowByTail(key, [b0, b1, b2], b0 + 0x100 * b1 + 0x10000 * b2);
  }
}
