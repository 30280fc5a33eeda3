/** Bytes and `uint32_t` words, with the wrapping arithmetic of C. */
module Words {
  import opened Bits

  type Byte = x: nat | x < 256
  type Word = x: nat | x < 0x1_0000_0000

  function Add(x: Word, y: Word): Word {
    (x + y) % 0x1_0000_0000
  }

  function Sub(x: Word, y: Word): Word {
    (x - y) % 0x1_0000_0000
  }

  function Mul(x: Word, y: Word): Word {
    (x * y) % 0x1_0000_0000
  }

  lemma AddSub(x: Word, y: Word)
    ensures Sub(Add(x, y), y) == x
    ensures Add(Sub(x, y), y) == x
  {
  }

  /** The conversion `(uint32_t)length` of a `size_t`. */
  function Low32(n: nat): Word {
    n % 0x1_0000_0000
  }

  function Xor32(x: Word, y: Word): Word {
    Pow2Values();
    XorBound(x, y, 32);
    Xor(x, y)
  }

  function Shl32(x: Word, r: nat): Word {
    Shl(x, r) % 0x1_0000_0000
  }

  function And32(x: Word, mask: Word): Word {
    AndAtMost(x, mask);
    And(x, mask)
  }

  lemma {:induction false} AndAtMost(x: nat, y: nat)
    ensures And(x, y) <= x
  {
    if x == 0 || y == 0 {
    } else {
      AndAtMost(x / 2, y / 2);
      assert (x % 2) * (y % 2) <= x % 2;
    }
  }

  function Shr32(x: Word, r: nat): Word {
    ShrAtMost(x, r);
    Shr(x, r)
  }

  lemma {:induction false} ShrAtMost(x: nat, r: nat)
    ensures Shr(x, r) <= x
  {
    if r == 0 {
    } else {
      ShrAtMost(x / 2, r - 1);
    }
  }

  // ---------------------------------------------------------------- rotation

  /** The bits of `x` moved up by `r` places, those that fall off re-entering at the bottom. */
  function Rotated(x: Word, r: nat): nat
    requires 0 < r < 32
  {
    Shl(x % Pow2(32 - r), r) + Shr(x, 32 - r)
  }

  lemma RotationParts(x: Word, r: nat)
    requires 0 < r < 32
    ensures Shr(x, 32 - r) < Pow2(r)
    ensures Shl32(x, r) == Shl(x % Pow2(32 - r), r)
    ensures Rotated(x, r) < 0x1_0000_0000
  {
    Pow2Adds(r, 32 - r);
    Pow2Values();
    var p, q := Pow2(r), Pow2(32 - r);
    hide *;
    ShrDivides(x, 32 - r);
    ShlMultiplies(x, r);
    ShlMultiplies(x % q, r);
    Divide(x, q);
    SplitShift(x, p, q, x / q, x % q);
    assert Rotated(x, r) < 0x1_0000_0000 by {
      UnfoldRotated(x, r);
    }
    assert Shl32(x, r) == Shl(x, r) % 0x1_0000_0000 by {
      UnfoldShl32(x, r);
    }
  }

  lemma UnfoldRotated(x: Word, r: nat)
    requires 0 < r < 32
    ensures Rotated(x, r) == Shl(x % Pow2(32 - r), r) + Shr(x, 32 - r)
  {
  }

  lemma UnfoldShl32(x: Word, r: nat)
    ensures Shl32(x, r) == Shl(x, r) % 0x1_0000_0000
  {
  }

  /** A word `a * q + b` shifted up by the factor `p` loses exactly `a`. */
  lemma SplitShift(x: nat, p: nat, q: nat, a: nat, b: nat)
    requires p * q == 0x1_0000_0000 && x < 0x1_0000_0000
    requires x == a * q + b && b < q && p > 0
    ensures a < p
    ensures (x * p) % 0x1_0000_0000 == b * p
    ensures b * p + a < 0x1_0000_0000
  {
    assert a < p by {
      if a >= p {
        MulMonotone(p, a, q);
        assert false;
      }
    }
    MulMonotone(b + 1, q, p);
    assert (b + 1) * p == b * p + p;
    calc {
      x * p;
      (a * q + b) * p;
      (a * q) * p + b * p;
      { assert (a * q) * p == a * (p * q); }
      0x1_0000_0000 * a + b * p;
    }
    DivUnique(x * p, 0x1_0000_0000, a, b * p);
  }

  lemma Divide(x: nat, d: nat)
    requires d > 0
    ensures x == (x / d) * d + x % d && x % d < d
  {
  }

  lemma MulMonotone(x: nat, y: nat, z: nat)
    requires x <= y
    ensures x * z <= y * z
  {
  }

  lemma RotatedIs(x: Word, r: nat, p: nat, q: nat)
    requires 0 < r < 32 && p == Pow2(r) && q == Pow2(32 - r)
    ensures Rotated(x, r) == x % q * p + x / q
  {
    hide *;
    UnfoldRotated(x, r);
    ShlMultiplies(x % q, r);
    ShrDivides(x, 32 - r);
  }

  /** `(x << r) | (x >> (32 - r))`. */
  function Rotl32(x: Word, r: nat): (y: Word)
    requires 0 < r < 32
    ensures y == Rotated(x, r)
  {
    var lo := Shr32(x, 32 - r);
    RotationParts(x, r);
    ShrDivides(x, 32 - r);
    Disjoint(x % Pow2(32 - r), lo, r);
    Or(Shl32(x, r), lo)
  }

  /** `(x << r) ^ (x >> (32 - r))`. */
  function Rot(x: Word, r: nat): (y: Word)
    requires 0 < r < 32
    ensures y == Rotated(x, r)
  {
    var lo := Shr32(x, 32 - r);
    RotationParts(x, r);
    ShrDivides(x, 32 - r);
    Disjoint(x % Pow2(32 - r), lo, r);
    Xor32(Shl32(x, r), lo)
  }

  lemma RotateBack(x: Word, r: nat)
    requires 0 < r < 32
    ensures Rotl32(Rotl32(x, r), 32 - r) == x
  {
    var p, q := Pow2(r), Pow2(32 - r);
    var y := Rotl32(x, r);
    hide *;
    RotationParts(x, r);
    UnfoldRotated(x, r);
    UnfoldRotated(y, 32 - r);
    ShrDivides(x, 32 - r);
    ShrDivides(y, r);
    ShlMultiplies(x % q, r);
    ShlMultiplies(y % p, 32 - r);
    Divide(x, q);
    DivUnique(y, p, x % q, x / q);
  }

  // ---------------------------------------------------------------- words made of bytes

  lemma ByteShifts(b: Byte)
    ensures Shl32(b, 8) == 0x100 * b && Shl32(b, 16) == 0x10000 * b && Shl32(b, 24) == 0x1000000 * b
  {
    hide Shl, Pow2;
    Pow2Values();
    ShlMultiplies(b, 8);
    ShlMultiplies(b, 16);
    ShlMultiplies(b, 24);
  }

  /** The word whose bytes, least significant first, are the four given ones. */
  function Le32(b0: Byte, b1: Byte, b2: Byte, b3: Byte): Word {
    b0 + 0x100 * b1 + 0x10000 * b2 + 0x1000000 * b3
  }

  /** Byte `i` of a word, counting from the least significant. */
  function ByteOf(w: Word, i: nat): Byte
    requires i < 4
  {
    if i == 0 then w % 0x100
    else if i == 1 then w / 0x100 % 0x100
    else if i == 2 then w / 0x100 / 0x100 % 0x100
    else w / 0x100 / 0x100 / 0x100
  }

  lemma Le32OfBytes(w: Word)
    ensures Le32(ByteOf(w, 0), ByteOf(w, 1), ByteOf(w, 2), ByteOf(w, 3)) == w
  {
  }

  lemma BytesOfLe32(b0: Byte, b1: Byte, b2: Byte, b3: Byte)
    ensures ByteOf(Le32(b0, b1, b2, b3), 0) == b0
    ensures ByteOf(Le32(b0, b1, b2, b3), 1) == b1
    ensures ByteOf(Le32(b0, b1, b2, b3), 2) == b2
    ensures ByteOf(Le32(b0, b1, b2, b3), 3) == b3
  {
  }

  lemma Le32Injective(a0: Byte, a1: Byte, a2: Byte, a3: Byte, b0: Byte, b1: Byte, b2: Byte, b3: Byte)
    requires Le32(a0, a1, a2, a3) == Le32(b0, b1, b2, b3)
    ensures a0 == b0 && a1 == b1 && a2 == b2 && a3 == b3
  {
    BytesOfLe32(a0, a1, a2, a3);
    BytesOfLe32(b0, b1, b2, b3);
  }

  lemma HalfShift(h: Word)
    requires h < 0x10000
    ensures Shl32(h, 16) == 0x10000 * h
  {
    hide Shl, Pow2;
    Pow2Values();
    ShlMultiplies(h, 16);
  }

  /** Adding the parts of a word one after another adds the word; parts that are zero may be skipped. */
  lemma SumChain(x: Word, u3: Word, u2: Word, u1: Word, u0: Word)
    requires u3 + u2 + u1 + u0 < 0x1_0000_0000
    ensures Add(Add(Add(Add(x, u3), u2), u1), u0) == Add(x, u3 + u2 + u1 + u0)
    ensures u3 == 0 ==> Add(Add(Add(x, u2), u1), u0) == Add(x, u3 + u2 + u1 + u0)
    ensures u3 == u2 == 0 ==> Add(Add(x, u1), u0) == Add(x, u3 + u2 + u1 + u0)
    ensures u3 == u2 == u1 == 0 ==> Add(x, u0) == Add(x, u3 + u2 + u1 + u0)
    ensures u3 == u2 == u1 == u0 == 0 ==> x == Add(x, u3 + u2 + u1 + u0)
  {
    AddTwo(x, u3, u2);
    AddTwo(x, u3 + u2, u1);
    AddTwo(x, u3 + u2 + u1, u0);
    AddTwo(x, u2, u1);
    AddTwo(x, u2 + u1, u0);
    AddTwo(x, u1, u0);
    hide Add;
    assert Add(x, 0) == x by {
      AddZero(x);
    }
  }

  lemma AddTwo(x: Word, u: Word, v: Word)
    requires u + v < 0x1_0000_0000
    ensures Add(Add(x, u), v) == Add(x, u + v)
  {
  }

  lemma AddZero(x: Word)
    ensures Add(x, 0) == x
  {
  }

  /** A key read as if it were followed by zeros. */
  function ByteOrZero(key: seq<Byte>, at: nat): Byte {
    if at < |key| then key[at] else 0
  }
}
