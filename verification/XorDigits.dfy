/** Exclusive or worked out by hexadecimal digits, to evaluate the hashes of particular keys. */
module XorDigits {
  import opened Bits

  /** A hexadecimal digit by its four bits. */
  datatype Digit = Digit(b3: bool, b2: bool, b1: bool, b0: bool) {
    function Value(): nat {
      8 * Unit(b3) + 4 * Unit(b2) + 2 * Unit(b1) + Unit(b0)
    }

    function Flip(d: Digit): Digit {
      Digit(b3 != d.b3, b2 != d.b2, b1 != d.b1, b0 != d.b0)
    }
  }

  function Unit(b: bool): nat {
    if b then 1 else 0
  }

  const D0 := Digit(false, false, false, false)
  const D1 := Digit(false, false, false, true)
  const D2 := Digit(false, false, true, false)
  const D3 := Digit(false, false, true, true)
  const D4 := Digit(false, true, false, false)
  const D5 := Digit(false, true, false, true)
  const D6 := Digit(false, true, true, false)
  const D7 := Digit(false, true, true, true)
  const D8 := Digit(true, false, false, false)
  const D9 := Digit(true, false, false, true)
  const DA := Digit(true, false, true, false)
  const DB := Digit(true, false, true, true)
  const DC := Digit(true, true, false, false)
  const DD := Digit(true, true, false, true)
  const DE := Digit(true, true, true, false)
  const DF := Digit(true, true, true, true)

  lemma XorBit(x: nat, y: nat, p: bool, q: bool)
    ensures Xor(2 * x + Unit(p), 2 * y + Unit(q)) == 2 * Xor(x, y) + Unit(p != q)
  {
    var u, v := 2 * x + Unit(p), 2 * y + Unit(q);
    assert u / 2 == x && v / 2 == y && (u + v) % 2 == Unit(p != q);
    hide *;
    XorStep(u, v);
  }

  lemma XorBits(x: nat, y: nat, p3: bool, p2: bool, p1: bool, p0: bool, q3: bool, q2: bool, q1: bool, q0: bool)
    ensures Xor(16 * x + (8 * Unit(p3) + 4 * Unit(p2) + 2 * Unit(p1) + Unit(p0)),
                16 * y + (8 * Unit(q3) + 4 * Unit(q2) + 2 * Unit(q1) + Unit(q0)))
         == 16 * Xor(x, y) + (8 * Unit(p3 != q3) + 4 * Unit(p2 != q2) + 2 * Unit(p1 != q1) + Unit(p0 != q0))
  {
    hide *;
    XorBit(x, y, p3, q3);
    XorBit(2 * x + Unit(p3), 2 * y + Unit(q3), p2, q2);
    XorBit(4 * x + 2 * Unit(p3) + Unit(p2), 4 * y + 2 * Unit(q3) + Unit(q2), p1, q1);
    XorBit(8 * x + 4 * Unit(p3) + 2 * Unit(p2) + Unit(p1), 8 * y + 4 * Unit(q3) + 2 * Unit(q2) + Unit(q1), p0, q0);
  }

  lemma XorDigit(x: nat, y: nat, a: Digit, b: Digit)
    ensures Xor(16 * x + a.Value(), 16 * y + b.Value()) == 16 * Xor(x, y) + a.Flip(b).Value()
  {
    Values(a, b);
    hide *;
    XorBits(x, y, a.b3, a.b2, a.b1, a.b0, b.b3, b.b2, b.b1, b.b0);
  }

  lemma Values(a: Digit, b: Digit)
    ensures a.Value() == 8 * Unit(a.b3) + 4 * Unit(a.b2) + 2 * Unit(a.b1) + Unit(a.b0)
    ensures b.Value() == 8 * Unit(b.b3) + 4 * Unit(b.b2) + 2 * Unit(b.b1) + Unit(b.b0)
    ensures a.Flip(b).Value() ==
              8 * Unit(a.b3 != b.b3) + 4 * Unit(a.b2 != b.b2) + 2 * Unit(a.b1 != b.b1) + Unit(a.b0 != b.b0)
  {
  }

  function Hex(d3: Digit, d2: Digit, d1: Digit, d0: Digit): nat {
    0x1000 * d3.Value() + 0x100 * d2.Value() + 0x10 * d1.Value() + d0.Value()
  }

  lemma XorFour(x: nat, y: nat, a3: Digit, a2: Digit, a1: Digit, a0: Digit, b3: Digit, b2: Digit, b1: Digit, b0: Digit)
    ensures Xor(0x10000 * x + Hex(a3, a2, a1, a0), 0x10000 * y + Hex(b3, b2, b1, b0))
         == 0x10000 * Xor(x, y) + Hex(a3.Flip(b3), a2.Flip(b2), a1.Flip(b1), a0.Flip(b0))
  {
    hide Xor, Digit.Value, Digit.Flip;
    XorDigit(x, y, a3, b3);
    var x1, y1 := 16 * x + a3.Value(), 16 * y + b3.Value();
    XorDigit(x1, y1, a2, b2);
    var x2, y2 := 16 * x1 + a2.Value(), 16 * y1 + b2.Value();
    XorDigit(x2, y2, a1, b1);
    XorDigit(16 * x2 + a1.Value(), 16 * y2 + b1.Value(), a0, b0);
  }

  lemma XorTop(a3: Digit, a2: Digit, a1: Digit, a0: Digit, b3: Digit, b2: Digit, b1: Digit, b0: Digit)
    ensures Xor(Hex(a3, a2, a1, a0), Hex(b3, b2, b1, b0)) == Hex(a3.Flip(b3), a2.Flip(b2), a1.Flip(b1), a0.Flip(b0))
  {
    XorZero(0);
    hide *;
    XorFour(0, 0, a3, a2, a1, a0, b3, b2, b1, b0);
  }

  lemma DigitValues()
    ensures D0.Value() == 0 && D1.Value() == 1 && D2.Value() == 2 && D3.Value() == 3
    ensures D4.Value() == 4 && D5.Value() == 5 && D6.Value() == 6 && D7.Value() == 7
    ensures D8.Value() == 8 && D9.Value() == 9 && DA.Value() == 10 && DB.Value() == 11
    ensures DC.Value() == 12 && DD.Value() == 13 && DE.Value() == 14 && DF.Value() == 15
  {
  }

  /** Two words and their exclusive or, spelled out in digits. */
  lemma XorEight(x: nat, y: nat, z: nat,
                 a7: Digit, a6: Digit, a5: Digit, a4: Digit, a3: Digit, a2: Digit, a1: Digit, a0: Digit,
                 b7: Digit, b6: Digit, b5: Digit, b4: Digit, b3: Digit, b2: Digit, b1: Digit, b0: Digit,
                 c7: Digit, c6: Digit, c5: Digit, c4: Digit, c3: Digit, c2: Digit, c1: Digit, c0: Digit)
    requires x == 0x10000 * Hex(a7, a6, a5, a4) + Hex(a3, a2, a1, a0)
    requires y == 0x10000 * Hex(b7, b6, b5, b4) + Hex(b3, b2, b1, b0)
    requires z == 0x10000 * Hex(c7, c6, c5, c4) + Hex(c3, c2, c1, c0)
    requires c7 == a7.Flip(b7) && c6 == a6.Flip(b6) && c5 == a5.Flip(b5) && c4 == a4.Flip(b4)
    requires c3 == a3.Flip(b3) && c2 == a2.Flip(b2) && c1 == a1.Flip(b1) && c0 == a0.Flip(b0)
    ensures Xor(x, y) == z
  {
    hide *;
    XorTop(a7, a6, a5, a4, b7, b6, b5, b4);
    XorFour(Hex(a7, a6, a5, a4), Hex(b7, b6, b5, b4), a3, a2, a1, a0, b3, b2, b1, b0);
  }
}
