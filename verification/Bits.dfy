/** The C bitwise operators on unsigned integers, and what the shifts and masks do to them. */
module Bits {
  function Pow2(n: nat): (p: nat)
    ensures p > 0
  {
    if n == 0 then 1 else 2 * Pow2(n - 1)
  }

  function Xor(x: nat, y: nat): nat {
    if x == 0 && y == 0 then 0 else (x + y) % 2 + 2 * Xor(x / 2, y / 2)
  }

  function And(x: nat, y: nat): nat {
    if x == 0 || y == 0 then 0 else (x % 2) * (y % 2) + 2 * And(x / 2, y / 2)
  }

  function Or(x: nat, y: nat): nat {
    if x == 0 && y == 0 then 0
    else (if x % 2 == 1 || y % 2 == 1 then 1 else 0) + 2 * Or(x / 2, y / 2)
  }

  lemma {:induction false} Pow2Adds(m: nat, n: nat)
    ensures Pow2(m + n) == Pow2(m) * Pow2(n)
  {
    if m == 0 {
    } else {
      Pow2Adds(m - 1, n);
      assert Pow2(m) * Pow2(n) == 2 * (Pow2(m - 1) * Pow2(n));
    }
  }

  lemma Pow2Values()
    ensures Pow2(4) == 16 && Pow2(6) == 64 && Pow2(8) == 256 && Pow2(11) == 2048
    ensures Pow2(13) == 8192 && Pow2(14) == 16384 && Pow2(15) == 32768 && Pow2(16) == 65536
    ensures Pow2(17) == 131072 && Pow2(19) == 524288 && Pow2(24) == 16777216
    ensures Pow2(25) == 33554432 && Pow2(26) == 67108864 && Pow2(32) == 0x1_0000_0000
  {
  }

  // ---------------------------------------------------------------- exclusive or

  lemma {:induction false} XorCommutes(x: nat, y: nat)
    ensures Xor(x, y) == Xor(y, x)
  {
    if x == 0 && y == 0 {
    } else {
      XorCommutes(x / 2, y / 2);
    }
  }

  lemma {:induction false} XorZero(x: nat)
    ensures Xor(x, 0) == x && Xor(0, x) == x
  {
    if x == 0 {
    } else {
      XorZero(x / 2);
    }
  }

  lemma {:induction false} XorSelf(x: nat)
    ensures Xor(x, x) == 0
  {
    if x == 0 {
    } else {
      XorSelf(x / 2);
    }
  }

  lemma XorHalves(x: nat, y: nat)
    ensures Xor(x, y) / 2 == Xor(x / 2, y / 2)
    ensures Xor(x, y) % 2 == (x + y) % 2
  {
  }

  lemma {:induction false} XorAssociates(x: nat, y: nat, z: nat)
    ensures Xor(Xor(x, y), z) == Xor(x, Xor(y, z))
  {
    if x == 0 && y == 0 && z == 0 {
    } else {
      XorAssociates(x / 2, y / 2, z / 2);
      hide *;
      XorHalves(x, y);
      XorHalves(y, z);
      XorHalves(Xor(x, y), z);
      XorHalves(x, Xor(y, z));
      ParityAssociates(x, y, z, Xor(x, y), Xor(y, z));
      SameHalves(Xor(Xor(x, y), z), Xor(x, Xor(y, z)));
    }
  }

  lemma SameHalves(x: nat, y: nat)
    ensures x / 2 == y / 2 && x % 2 == y % 2 ==> x == y
  {
  }

  lemma ParityAssociates(x: nat, y: nat, z: nat, u: nat, v: nat)
    requires u % 2 == (x + y) % 2 && v % 2 == (y + z) % 2
    ensures (u + z) % 2 == (x + v) % 2
  {
  }

  /** Xoring the same value in twice changes nothing. */
  lemma XorCancels(x: nat, y: nat)
    ensures Xor(Xor(x, y), y) == x
    ensures Xor(Xor(y, x), y) == x
    ensures Xor(y, Xor(x, y)) == x
    ensures Xor(y, Xor(y, x)) == x
  {
    XorAssociates(x, y, y);
    XorSelf(y);
    XorZero(x);
    XorCommutes(x, y);
    XorCommutes(Xor(x, y), y);
  }

  lemma {:induction false} XorBound(x: nat, y: nat, n: nat)
    requires x < Pow2(n) && y < Pow2(n)
    ensures Xor(x, y) < Pow2(n)
  {
    if n == 0 {
    } else {
      XorBound(x / 2, y / 2, n - 1);
    }
  }

  /** The right shift `x >> n`. */
  function Shr(x: nat, n: nat): nat {
    if n == 0 then x else Shr(x / 2, n - 1)
  }

  lemma {:induction false} ShrDivides(x: nat, n: nat)
    ensures Shr(x, n) == x / Pow2(n)
  {
    if n == 0 {
    } else {
      ShrDivides(x / 2, n - 1);
      DivTwice(x, Pow2(n - 1));
    }
  }

  lemma {:induction false} ShrShr(x: nat, m: nat, n: nat)
    ensures Shr(Shr(x, m), n) == Shr(x, m + n)
  {
    if m == 0 {
    } else {
      ShrShr(x / 2, m - 1, n);
    }
  }

  /** A right shift distributes over xor. */
  lemma {:induction false} XorShifts(x: nat, y: nat, n: nat)
    ensures Shr(Xor(x, y), n) == Xor(Shr(x, n), Shr(y, n))
  {
    if n == 0 {
    } else {
      XorHalves(x, y);
      XorShifts(x / 2, y / 2, n - 1);
    }
  }

  lemma DivTwice(x: nat, d: nat)
    requires d > 0
    ensures x / 2 / d == x / (2 * d)
  {
    var q := x / (2 * d);
    var r := x % (2 * d);
    assert x == 2 * d * q + r;
    assert x / 2 == d * q + r / 2;
    DivUnique(x / 2, d, q, r / 2);
  }

  lemma DivUnique(x: int, d: int, q: int, r: int)
    requires d > 0 && 0 <= r < d && x == d * q + r
    ensures x / d == q && x % d == r
  {
    var q' := x / d;
    assert d * (q - q') == x % d - r by {
      assert x == d * q' + x % d;
      assert d * (q - q') == d * q - d * q';
    }
    if q < q' {
      assert d * (q' - q) == -(d * (q - q'));
      Multiple(d, q' - q);
    } else if q > q' {
      Multiple(d, q - q');
    }
  }

  lemma Multiple(d: int, k: int)
    requires d > 0 && k > 0
    ensures d * k >= d
  {
  }

  // ---------------------------------------------------------------- bits that do not meet

  /** The unbounded left shift. */
  function Shl(x: nat, n: nat): nat {
    if n == 0 then x else 2 * Shl(x, n - 1)
  }

  lemma {:induction false} ShlMultiplies(x: nat, n: nat)
    ensures Shl(x, n) == x * Pow2(n)
  {
    if n == 0 {
    } else {
      ShlMultiplies(x, n - 1);
      assert x * (2 * Pow2(n - 1)) == 2 * (x * Pow2(n - 1));
    }
  }

  /** Where the operands share no bit, `^`, `|` and `+` agree. */
  lemma {:induction false} Disjoint(hi: nat, lo: nat, n: nat)
    requires lo < Pow2(n)
    ensures Xor(Shl(hi, n), lo) == Shl(hi, n) + lo
    ensures Or(Shl(hi, n), lo) == Shl(hi, n) + lo
  {
    if n == 0 {
      XorZero(hi);
      OrZero(hi);
    } else {
      Disjoint(hi, lo / 2, n - 1);
      DisjointStep(Shl(hi, n - 1), lo);
    }
  }

  lemma DisjointStep(h: nat, lo: nat)
    requires Xor(h, lo / 2) == h + lo / 2 && Or(h, lo / 2) == h + lo / 2
    ensures Xor(2 * h, lo) == 2 * h + lo && Or(2 * h, lo) == 2 * h + lo
  {
    hide *;
    Doubled(h, lo);
    XorStep(2 * h, lo);
    OrStep(2 * h, lo);
  }

  lemma Doubled(h: nat, lo: nat)
    ensures (2 * h) / 2 == h && (2 * h) % 2 == 0 && (2 * h + lo) % 2 == lo % 2
  {
  }

  lemma XorStep(x: nat, y: nat)
    ensures Xor(x, y) == (x + y) % 2 + 2 * Xor(x / 2, y / 2)
  {
  }

  lemma OrStep(x: nat, y: nat)
    ensures Or(x, y) == (if x % 2 == 1 || y % 2 == 1 then 1 else 0) + 2 * Or(x / 2, y / 2)
  {
  }

  lemma {:induction false} OrZero(x: nat)
    ensures Or(x, 0) == x
  {
    if x == 0 {
    } else {
      OrZero(x / 2);
    }
  }

  // ---------------------------------------------------------------- masks

  /** A mask of `n` low ones keeps the remainder modulo 2^n. */
  lemma {:induction false} LowMask(x: nat, n: nat)
    ensures And(x, Pow2(n) - 1) == x % Pow2(n)
  {
    if n == 0 {
    } else if x == 0 {
    } else {
      LowMask(x / 2, n - 1);
      LowMaskStep(x, Pow2(n - 1));
    }
  }

  lemma LowMaskStep(x: nat, q: nat)
    requires q > 0 && And(x / 2, q - 1) == x / 2 % q
    ensures And(x, 2 * q - 1) == x % (2 * q)
  {
    hide *;
    ModTwice(x, q);
    AndStep(x, 2 * q - 1);
    assert (2 * q - 1) / 2 == q - 1 && (2 * q - 1) % 2 == 1;
  }

  lemma ModTwice(x: nat, d: nat)
    requires d > 0
    ensures x % (2 * d) == x % 2 + 2 * (x / 2 % d)
  {
    var q, r := x / 2 / d, x / 2 % d;
    assert x == 2 * (d * q + r) + x % 2;
    assert x == (2 * d) * q + (2 * r + x % 2);
    DivUnique(x, 2 * d, q, 2 * r + x % 2);
  }

  /** A mask of `k` ones above `n` zeros. */
  function HighOnes(k: nat, n: nat): nat {
    if n == 0 then Pow2(k) - 1 else 2 * HighOnes(k, n - 1)
  }

  /** Such a mask clears the remainder modulo 2^n. */
  lemma {:induction false} HighMask(x: nat, k: nat, n: nat)
    requires x < Pow2(k + n)
    ensures And(x, HighOnes(k, n)) == x - x % Pow2(n)
  {
    if n == 0 {
      LowMask(x, k);
      ModSmall(x, Pow2(k));
    } else {
      HighMask(x / 2, k, n - 1);
      HighMaskStep(x, HighOnes(k, n - 1), Pow2(n - 1));
    }
  }

  lemma HighMaskStep(x: nat, m: nat, p: nat)
    requires p > 0 && And(x / 2, m) == x / 2 - x / 2 % p
    ensures And(x, 2 * m) == x - x % (2 * p)
  {
    hide *;
    ModTwice(x, p);
    AndStep(x, 2 * m);
    Doubled(m, 0);
  }

  lemma AndStep(x: nat, y: nat)
    ensures And(x, y) == (x % 2) * (y % 2) + 2 * And(x / 2, y / 2)
  {
  }

  lemma ModSmall(x: nat, d: nat)
    requires x < d
    ensures x % d == x
  {
  }
}
