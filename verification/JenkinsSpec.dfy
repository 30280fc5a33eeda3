/** What the Jenkins hash computes, and why none of its mixing loses information (jenkins_hash.c). */
module JenkinsSpec {
  import opened Bits
  import opened Words

  /** The internal state a, b, c. */
  datatype Triple = Triple(a: Word, b: Word, c: Word)

  datatype Endian = Little | Big

  // ---------------------------------------------------------------- mixing

  /**
   * One line of `mix`, written for its three variables in the order (a, b, c) of the first line:
   * `a -= c; a ^= rot(c, r); c += b`. The result lists them in the order the next line needs.
   */
  function MixLine(t: Triple, r: nat): Triple
    requires 0 < r < 32
  {
    Triple(t.b, Add(t.c, t.b), Xor32(Sub(t.a, t.c), Rot(t.c, r)))
  }

  function UnmixLine(t: Triple, r: nat): Triple
    requires 0 < r < 32
  {
    var c := Sub(t.b, t.a);
    Triple(Add(Xor32(t.c, Rot(c, r)), c), t.a, c)
  }

  function MixOf(t: Triple): Triple {
    MixLine(MixLine(MixLine(MixLine(MixLine(MixLine(t, 4), 6), 8), 16), 19), 4)
  }

  function UnmixOf(t: Triple): Triple {
    UnmixLine(UnmixLine(UnmixLine(UnmixLine(UnmixLine(UnmixLine(t, 4), 19), 16), 8), 6), 4)
  }

  /** One line of `final`, `c ^= b; c -= rot(b, r)`, again turned to suit the next line. */
  function FinalLine(t: Triple, r: nat): Triple
    requires 0 < r < 32
  {
    Triple(t.b, Sub(Xor32(t.c, t.b), Rot(t.b, r)), t.a)
  }

  function UnfinalLine(t: Triple, r: nat): Triple
    requires 0 < r < 32
  {
    Triple(t.c, t.a, Xor32(Add(t.b, Rot(t.a, r)), t.a))
  }

  /** Seven lines turn the triple once too often, which the last step undoes. */
  function FinalOf(t: Triple): Triple {
    var u := FinalLine(FinalLine(FinalLine(FinalLine(FinalLine(FinalLine(FinalLine(
      t, 14), 11), 25), 16), 4), 14), 24);
    Triple(u.c, u.a, u.b)
  }

  function UnfinalOf(t: Triple): Triple {
    UnfinalLine(UnfinalLine(UnfinalLine(UnfinalLine(UnfinalLine(UnfinalLine(UnfinalLine(
      Triple(t.b, t.c, t.a), 24), 14), 4), 16), 25), 11), 14)
  }

  lemma MixLineBijective(t: Triple, r: nat)
    requires 0 < r < 32
    ensures UnmixLine(MixLine(t, r), r) == t
    ensures MixLine(UnmixLine(t, r), r) == t
  {
    hide Add, Sub, Rot, Xor;
    AddSub(t.c, t.b);
    XorCancels(Sub(t.a, t.c), Rot(t.c, r));
    AddSub(t.a, t.c);
    var c := Sub(t.b, t.a);
    AddSub(t.b, t.a);
    AddSub(Xor32(t.c, Rot(c, r)), c);
    XorCancels(t.c, Rot(c, r));
  }

  lemma FinalLineBijective(t: Triple, r: nat)
    requires 0 < r < 32
    ensures UnfinalLine(FinalLine(t, r), r) == t
    ensures FinalLine(UnfinalLine(t, r), r) == t
  {
    hide Add, Sub, Rot, Xor;
    AddSub(Xor32(t.c, t.b), Rot(t.b, r));
    XorCancels(t.c, t.b);
    AddSub(t.b, Rot(t.a, r));
    XorCancels(Add(t.b, Rot(t.a, r)), t.a);
  }

  /** `mix` is reversible, as its comment claims: it is a permutation of the triples. */
  lemma MixBijective(t: Triple)
    ensures UnmixOf(MixOf(t)) == t
    ensures MixOf(UnmixOf(t)) == t
  {
    hide MixLine, UnmixLine;
    var t1 := MixLine(t, 4);
    var t2 := MixLine(t1, 6);
    var t3 := MixLine(t2, 8);
    var t4 := MixLine(t3, 16);
    var t5 := MixLine(t4, 19);
    MixLineBijective(t, 4);
    MixLineBijective(t1, 6);
    MixLineBijective(t2, 8);
    MixLineBijective(t3, 16);
    MixLineBijective(t4, 19);
    MixLineBijective(t5, 4);
    var u1 := UnmixLine(t, 4);
    var u2 := UnmixLine(u1, 19);
    var u3 := UnmixLine(u2, 16);
    var u4 := UnmixLine(u3, 8);
    var u5 := UnmixLine(u4, 6);
    MixLineBijective(u5, 4);
    MixLineBijective(u4, 6);
    MixLineBijective(u3, 8);
    MixLineBijective(u2, 16);
    MixLineBijective(u1, 19);
  }

  /** `final` is a permutation of the triples too. */
  lemma FinalBijective(t: Triple)
    ensures UnfinalOf(FinalOf(t)) == t
    ensures FinalOf(UnfinalOf(t)) == t
  {
    hide FinalLine, UnfinalLine;
    var t1 := FinalLine(t, 14);
    var t2 := FinalLine(t1, 11);
    var t3 := FinalLine(t2, 25);
    var t4 := FinalLine(t3, 16);
    var t5 := FinalLine(t4, 4);
    var t6 := FinalLine(t5, 14);
    FinalLineBijective(t, 14);
    FinalLineBijective(t1, 11);
    FinalLineBijective(t2, 25);
    FinalLineBijective(t3, 16);
    FinalLineBijective(t4, 4);
    FinalLineBijective(t5, 14);
    FinalLineBijective(t6, 24);
    var u0 := Triple(t.b, t.c, t.a);
    var u1 := UnfinalLine(u0, 24);
    var u2 := UnfinalLine(u1, 14);
    var u3 := UnfinalLine(u2, 4);
    var u4 := UnfinalLine(u3, 16);
    var u5 := UnfinalLine(u4, 25);
    var u6 := UnfinalLine(u5, 11);
    FinalLineBijective(u6, 14);
    FinalLineBijective(u5, 11);
    FinalLineBijective(u4, 25);
    FinalLineBijective(u3, 16);
    FinalLineBijective(u2, 4);
    FinalLineBijective(u1, 14);
    FinalLineBijective(u0, 24);
  }

  // ---------------------------------------------------------------- the hash of a key

  /** Four bytes in memory order, read as a word. */
  function Assemble(e: Endian, b0: Byte, b1: Byte, b2: Byte, b3: Byte): Word {
    match e
    case Little => Le32(b0, b1, b2, b3)
    case Big => Le32(b3, b2, b1, b0)
  }

  /** The word at offset `i` of the key extended by zeros. */
  function WordAt(e: Endian, key: seq<Byte>, i: nat): Word {
    Assemble(e, ByteOrZero(key, i), ByteOrZero(key, i + 1), ByteOrZero(key, i + 2), ByteOrZero(key, i + 3))
  }

  /** Add the first three words of the key to the state. */
  function AddBlock(e: Endian, t: Triple, key: seq<Byte>): Triple {
    Triple(Add(t.a, WordAt(e, key, 0)), Add(t.b, WordAt(e, key, 4)), Add(t.c, WordAt(e, key, 8)))
  }

  /** Mix in all but the last block, then add the last, zero-padded one. */
  function Absorb(e: Endian, t: Triple, key: seq<Byte>): Triple
    decreases |key|
  {
    if |key| <= 12 then AddBlock(e, t, key)
    else Absorb(e, MixOf(AddBlock(e, t, key)), key[12..])
  }

  function Start(n: nat): Triple {
    var v := Add(0xdeadbeef, Low32(n));
    Triple(v, v, v)
  }

  /** The triple from which `c` is returned. */
  function FinalTriple(e: Endian, key: seq<Byte>): Triple {
    FinalOf(Absorb(e, Start(|key|), key))
  }

  /** Zero-length strings require no mixing. */
  function Hash(e: Endian, key: seq<Byte>): Word {
    if key == [] then Start(0).c else FinalTriple(e, key).c
  }

  lemma HashOfEmpty(e: Endian)
    ensures Hash(e, []) == 0xdeadbeef
  {
  }

  // ---------------------------------------------------------------- what a block contributes survives

  lemma AddInjective(x: Word, y: Word, z: Word)
    ensures Add(x, z) == Add(y, z) ==> x == y
    ensures Add(z, x) == Add(z, y) ==> x == y
  {
    AddSub(x, z);
    AddSub(y, z);
    assert Add(z, x) == Add(x, z) && Add(z, y) == Add(y, z);
  }

  /** With the key fixed, different states stay different. */
  lemma {:induction false} AbsorbInjective(e: Endian, t: Triple, u: Triple, key: seq<Byte>)
    requires Absorb(e, t, key) == Absorb(e, u, key)
    ensures t == u
    decreases |key|
  {
    hide Add, WordAt, MixOf, UnmixOf;
    if |key| <= 12 {
    } else {
      AbsorbInjective(e, MixOf(AddBlock(e, t, key)), MixOf(AddBlock(e, u, key)), key[12..]);
      MixBijective(AddBlock(e, t, key));
      MixBijective(AddBlock(e, u, key));
    }
    AddInjective(t.a, u.a, WordAt(e, key, 0));
    AddInjective(t.b, u.b, WordAt(e, key, 4));
    AddInjective(t.c, u.c, WordAt(e, key, 8));
  }

  lemma WordsInjective(e: Endian, x: seq<Byte>, y: seq<Byte>, i: nat)
    requires WordAt(e, x, i) == WordAt(e, y, i)
    ensures forall p :: i <= p < i + 4 ==> ByteOrZero(x, p) == ByteOrZero(y, p)
  {
    hide Le32, ByteOrZero;
    if e.Little? {
      Le32Injective(ByteOrZero(x, i), ByteOrZero(x, i + 1), ByteOrZero(x, i + 2), ByteOrZero(x, i + 3),
                    ByteOrZero(y, i), ByteOrZero(y, i + 1), ByteOrZero(y, i + 2), ByteOrZero(y, i + 3));
    } else {
      Le32Injective(ByteOrZero(x, i + 3), ByteOrZero(x, i + 2), ByteOrZero(x, i + 1), ByteOrZero(x, i),
                    ByteOrZero(y, i + 3), ByteOrZero(y, i + 2), ByteOrZero(y, i + 1), ByteOrZero(y, i));
    }
  }

  /** The added block determines the first twelve bytes. */
  lemma AddBlockInjective(e: Endian, t: Triple, x: seq<Byte>, y: seq<Byte>)
    requires |x| == |y| && AddBlock(e, t, x) == AddBlock(e, t, y)
    ensures forall p :: 0 <= p < |x| && p < 12 ==> x[p] == y[p]
  {
    hide Add, WordAt;
    AddInjective(WordAt(e, x, 0), WordAt(e, y, 0), t.a);
    AddInjective(WordAt(e, x, 4), WordAt(e, y, 4), t.b);
    AddInjective(WordAt(e, x, 8), WordAt(e, y, 8), t.c);
    WordsInjective(e, x, y, 0);
    WordsInjective(e, x, y, 4);
    WordsInjective(e, x, y, 8);
    assert forall p :: 0 <= p < |x| ==> x[p] == ByteOrZero(x, p) && y[p] == ByteOrZero(y, p);
  }

  /** Which twelve-byte block a byte belongs to: the last one may be partial, and is full when the length allows. */
  predicate DifferOnlyInBlock(x: seq<Byte>, y: seq<Byte>, j: nat) {
    |x| == |y| && x != y && forall p :: 0 <= p < |x| && p / 12 != j ==> x[p] == y[p]
  }

  lemma {:induction false} AbsorbSeparates(e: Endian, t: Triple, x: seq<Byte>, y: seq<Byte>, j: nat)
    requires DifferOnlyInBlock(x, y, j)
    ensures Absorb(e, t, x) != Absorb(e, t, y)
    decreases |x|
  {
    hide AddBlock, MixOf, UnmixOf;
    if |x| <= 12 {
      if Absorb(e, t, x) == Absorb(e, t, y) {
        AddBlockInjective(e, t, x, y);
        assert false;
      }
    } else if j == 0 {
      assert x[12..] == y[12..];
      if Absorb(e, t, x) == Absorb(e, t, y) {
        AbsorbInjective(e, MixOf(AddBlock(e, t, x)), MixOf(AddBlock(e, t, y)), x[12..]);
        MixBijective(AddBlock(e, t, x));
        MixBijective(AddBlock(e, t, y));
        AddBlockInjective(e, t, x, y);
        assert false;
      }
    } else {
      SameFirstBlock(e, t, x, y);
      assert x == x[..12] + x[12..] && y == y[..12] + y[12..];
      AbsorbSeparates(e, MixOf(AddBlock(e, t, x)), x[12..], y[12..], j - 1);
    }
  }

  lemma SameFirstBlock(e: Endian, t: Triple, x: seq<Byte>, y: seq<Byte>)
    requires |x| == |y| > 12 && forall p :: 0 <= p < 12 ==> x[p] == y[p]
    ensures AddBlock(e, t, x) == AddBlock(e, t, y)
    ensures x[..12] == y[..12]
  {
  }

  /** Equal-length keys that differ in exactly one twelve-byte block, be it the last partial one, reach different triples. */
  lemma OneBlockSeparates(e: Endian, x: seq<Byte>, y: seq<Byte>, j: nat)
    requires DifferOnlyInBlock(x, y, j)
    ensures FinalTriple(e, x) != FinalTriple(e, y)
  {
    hide Absorb, FinalOf, UnfinalOf, Start;
    AbsorbSeparates(e, Start(|x|), x, y, j);
    FinalBijective(Absorb(e, Start(|x|), x));
    FinalBijective(Absorb(e, Start(|y|), y));
  }

  // ---------------------------------------------------------------- the length takes part

  lemma AddThree(n: nat, w: Word)
    ensures Add(Add(0xdeadbeef, Low32(n)), w) == (0xdeadbeef + n + w) % 0x1_0000_0000
  {
  }

  lemma BeforeFinal(e: Endian, key: seq<Byte>)
    ensures UnfinalOf(FinalTriple(e, key)) == Absorb(e, Start(|key|), key)
    ensures |key| <= 12 ==>
              var v := Add(0xdeadbeef, Low32(|key|));
              Absorb(e, Start(|key|), key) ==
                Triple(Add(v, WordAt(e, key, 0)), Add(v, WordAt(e, key, 4)), Add(v, WordAt(e, key, 8)))
  {
    hide Add, Low32, WordAt, FinalOf, UnfinalOf;
    FinalBijective(Absorb(e, Start(|key|), key));
  }

  lemma ShortSums(e: Endian, key: seq<Byte>, w0: Word, w1: Word, w2: Word)
    requires |key| <= 12 && WordAt(e, key, 0) == w0 && WordAt(e, key, 4) == w1 && WordAt(e, key, 8) == w2
    ensures var v := 0xdeadbeef + |key|;
            UnfinalOf(FinalTriple(e, key)) ==
              Triple((v + w0) % 0x1_0000_0000, (v + w1) % 0x1_0000_0000, (v + w2) % 0x1_0000_0000)
  {
    hide *;
    BeforeFinal(e, key);
    AddThree(|key|, w0);
    AddThree(|key|, w1);
    AddThree(|key|, w2);
  }

  /**
   * A key of up to twelve bytes, zero-padded to `z`: three sums of the length and the words of `z`, and nothing else, go
   * into `final`, and only the order of the bytes in a word depends on the machine.
   */
  lemma ShortKey(key: seq<Byte>, z: seq<Byte>)
    requires |z| == 12 && key <= z && forall i :: |key| <= i < 12 ==> z[i] == 0
    ensures var v, t := 0xdeadbeef + |key|, UnfinalOf(FinalTriple(Little, key));
            && t.a == (v + Le32(z[0], z[1], z[2], z[3])) % 0x1_0000_0000
            && t.b == (v + Le32(z[4], z[5], z[6], z[7])) % 0x1_0000_0000
            && t.c == (v + Le32(z[8], z[9], z[10], z[11])) % 0x1_0000_0000
    ensures var v, t := 0xdeadbeef + |key|, UnfinalOf(FinalTriple(Big, key));
            && t.a == (v + Le32(z[3], z[2], z[1], z[0])) % 0x1_0000_0000
            && t.b == (v + Le32(z[7], z[6], z[5], z[4])) % 0x1_0000_0000
            && t.c == (v + Le32(z[11], z[10], z[9], z[8])) % 0x1_0000_0000
  {
    hide FinalTriple, UnfinalOf, WordAt, Le32;
    PaddedWords(Little, key, z);
    PaddedWords(Big, key, z);
    ShortSums(Little, key, Le32(z[0], z[1], z[2], z[3]), Le32(z[4], z[5], z[6], z[7]), Le32(z[8], z[9], z[10], z[11]));
    ShortSums(Big, key, Le32(z[3], z[2], z[1], z[0]), Le32(z[7], z[6], z[5], z[4]), Le32(z[11], z[10], z[9], z[8]));
  }

  lemma PaddedWords(e: Endian, key: seq<Byte>, z: seq<Byte>)
    requires |z| == 12 && key <= z && forall i :: |key| <= i < 12 ==> z[i] == 0
    ensures WordAt(e, key, 0) == Assemble(e, z[0], z[1], z[2], z[3])
    ensures WordAt(e, key, 4) == Assemble(e, z[4], z[5], z[6], z[7])
    ensures WordAt(e, key, 8) == Assemble(e, z[8], z[9], z[10], z[11])
  {
    hide Assemble;
  }

  /** Zeros that stay within the last block add nothing to the state. */
  lemma {:induction false} ZerosAbsorbed(e: Endian, t: Triple, key: seq<Byte>, zeros: seq<Byte>)
    requires 0 < |key| % 12 && |key| % 12 + |zeros| <= 12 && forall i :: 0 <= i < |zeros| ==> zeros[i] == 0
    ensures Absorb(e, t, key + zeros) == Absorb(e, t, key)
    decreases |key|
  {
    hide MixOf, Assemble, Add;
    assert forall p :: p < 12 ==> ByteOrZero(key + zeros, p) == ByteOrZero(key, p);
    if |key| > 12 {
      assert (key + zeros)[12..] == key[12..] + zeros;
      ZerosAbsorbed(e, MixOf(AddBlock(e, t, key)), key[12..], zeros);
    }
  }

  lemma StartsDiffer(n: nat, k: nat)
    requires 0 < k < 12
    ensures Start(n + k) != Start(n)
  {
  }

  /** Zero bytes at the end of a partial block change nothing but the length, and that always changes the triple. */
  lemma LengthMatters(e: Endian, key: seq<Byte>, zeros: seq<Byte>)
    requires 0 < |key| % 12 && 0 < |zeros| && |key| % 12 + |zeros| <= 12 && forall i :: 0 <= i < |zeros| ==> zeros[i] == 0
    ensures FinalTriple(e, key + zeros) != FinalTriple(e, key)
  {
    hide Absorb, FinalOf, UnfinalOf, Start;
    var t, u := Start(|key + zeros|), Start(|key|);
    ZerosAbsorbed(e, t, key, zeros);
    StartsDiffer(|key|, |zeros|);
    FinalBijective(Absorb(e, t, key));
    FinalBijective(Absorb(e, u, key));
    if Absorb(e, t, key) == Absorb(e, u, key) {
      AbsorbInjective(e, t, u, key);
      assert false;
    }
  }

  // ---------------------------------------------------------------- information is lost only in returning c

  function WordBytes(e: Endian, w: Word): (bs: seq<Byte>)
    ensures |bs| == 4
  {
    match e
    case Little => [ByteOf(w, 0), ByteOf(w, 1), ByteOf(w, 2), ByteOf(w, 3)]
    case Big => [ByteOf(w, 3), ByteOf(w, 2), ByteOf(w, 1), ByteOf(w, 0)]
  }

  /** The twelve bytes that take state `t` to `u` when added. */
  function BlockBetween(e: Endian, t: Triple, u: Triple): (bs: seq<Byte>)
    ensures |bs| == 12
  {
    WordBytes(e, Sub(u.a, t.a)) + WordBytes(e, Sub(u.b, t.b)) + WordBytes(e, Sub(u.c, t.c))
  }

  lemma AddBlockReaches(e: Endian, t: Triple, u: Triple)
    ensures AddBlock(e, t, BlockBetween(e, t, u)) == u
  {
    hide Add, Sub, Le32, ByteOf;
    Le32OfBytes(Sub(u.a, t.a));
    Le32OfBytes(Sub(u.b, t.b));
    Le32OfBytes(Sub(u.c, t.c));
    var bs := BlockBetween(e, t, u);
    assert WordAt(e, bs, 0) == Sub(u.a, t.a);
    assert WordAt(e, bs, 4) == Sub(u.b, t.b);
    assert WordAt(e, bs, 8) == Sub(u.c, t.c);
    AddSubSwapped(u.a, t.a);
    AddSubSwapped(u.b, t.b);
    AddSubSwapped(u.c, t.c);
  }

  lemma AddSubSwapped(x: Word, y: Word)
    ensures Add(y, Sub(x, y)) == x
  {
    AddSub(x, y);
    assert Add(y, Sub(x, y)) == Add(Sub(x, y), y);
  }

  /** The twelve bytes that, after `front`, make the final triple `u`. */
  lemma {:induction false} LastBlockFor(e: Endian, t: Triple, front: seq<Byte>, u: Triple) returns (last: seq<Byte>)
    requires |front| % 12 == 0
    ensures |last| == 12 && Absorb(e, t, front + last) == u
    decreases |front|
  {
    hide AddBlock, MixOf, BlockBetween;
    if front == [] {
      last := BlockBetween(e, t, u);
      AddBlockReaches(e, t, u);
      assert front + last == last;
    } else {
      var next := MixOf(AddBlock(e, t, front));
      last := LastBlockFor(e, next, front[12..], u);
      assert (front + last)[12..] == front[12..] + last;
      FirstBlockOnly(e, t, front, last);
    }
  }

  lemma FirstBlockOnly(e: Endian, t: Triple, front: seq<Byte>, rest: seq<Byte>)
    requires |front| >= 12
    ensures AddBlock(e, t, front + rest) == AddBlock(e, t, front)
  {
  }

  /**
   * For every front of whole blocks, the last block ranges over all final triples: each is reached, and since
   * a last block that differs gives another triple, by one block only. Two keys with the same hash and
   * different triples therefore exist for every front: returning `c` alone is where information is lost.
   */
  lemma OnlyTheReturnLoses(e: Endian, front: seq<Byte>, u: Triple, v: Triple)
    returns (x: seq<Byte>, y: seq<Byte>)
    requires |front| % 12 == 0 && u != v && u.c == v.c
    ensures |x| == |y| == |front| + 12 && front <= x && front <= y
    ensures FinalTriple(e, x) == u && FinalTriple(e, y) == v
    ensures x != y && Hash(e, x) == Hash(e, y)
  {
    hide Absorb, FinalOf, UnfinalOf, Start;
    FinalBijective(u);
    FinalBijective(v);
    var last := LastBlockFor(e, Start(|front| + 12), front, UnfinalOf(u));
    x := front + last;
    last := LastBlockFor(e, Start(|front| + 12), front, UnfinalOf(v));
    y := front + last;
  }

  // ---------------------------------------------------------------- the two byte orders

  /** Where index `i` lands when groups of four are reversed. */
  function Mirror(i: nat): nat {
    4 * (i / 4) + 3 - i % 4
  }

  lemma MirrorFacts(i: nat)
    ensures Mirror(i) / 4 == i / 4
    ensures Mirror(i + 12) == Mirror(i) + 12
    ensures i % 4 == 0 ==>
      Mirror(i) == i + 3 && Mirror(i + 1) == i + 2 && Mirror(i + 2) == i + 1 && Mirror(i + 3) == i
  {
  }

  /** The key with each group of four bytes reversed. */
  function ReverseGroups(key: seq<Byte>): (r: seq<Byte>)
    requires |key| % 4 == 0
    ensures |r| == |key|
  {
    seq(|key|, i requires 0 <= i < |key| => MirrorFacts(i); key[Mirror(i)])
  }

  lemma ReversedWord(key: seq<Byte>, i: nat)
    requires |key| % 4 == 0 && i % 4 == 0
    ensures WordAt(Big, key, i) == WordAt(Little, ReverseGroups(key), i)
  {
    hide Le32, Mirror;
    MirrorFacts(i);
    var r := ReverseGroups(key);
    if i < |key| {
      assert r[i] == key[i + 3] && r[i + 1] == key[i + 2] && r[i + 2] == key[i + 1] && r[i + 3] == key[i];
    }
  }

  lemma ReversedRest(key: seq<Byte>)
    requires |key| % 4 == 0 && |key| > 12
    ensures ReverseGroups(key)[12..] == ReverseGroups(key[12..])
  {
    hide Mirror;
    forall i | 0 <= i < |key| - 12
      ensures ReverseGroups(key)[12..][i] == ReverseGroups(key[12..])[i]
    {
      MirrorFacts(i);
      MirrorFacts(i + 12);
    }
  }

  lemma {:induction false} AbsorbReversed(t: Triple, key: seq<Byte>)
    requires |key| % 4 == 0
    ensures Absorb(Big, t, key) == Absorb(Little, t, ReverseGroups(key))
    decreases |key|
  {
    hide WordAt, MixOf, Add, ReverseGroups;
    ReversedWord(key, 0);
    ReversedWord(key, 4);
    ReversedWord(key, 8);
    if |key| > 12 {
      ReversedRest(key);
      AbsorbReversed(MixOf(AddBlock(Big, t, key)), key[12..]);
    }
  }

  /** For lengths divisible by four, the big-endian hash is the little-endian hash of the key with its groups reversed. */
  lemma BigIsReversedLittle(key: seq<Byte>)
    requires |key| % 4 == 0
    ensures Hash(Big, key) == Hash(Little, ReverseGroups(key))
  {
    hide Absorb, FinalOf;
    AbsorbReversed(Start(|key|), key);
    if key == [] {
      assert ReverseGroups(key) == [];
    }
  }
}
