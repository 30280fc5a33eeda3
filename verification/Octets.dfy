/** Integers as bytes: host order is little-endian, network order big-endian. */
module Octets {
  import opened Bits
  import opened Words

  /** 256 to the power `n`. */
  function Pow256(n: nat): (p: nat)
    ensures p > 0
  {
    if n == 0 then 1 else 256 * Pow256(n - 1)
  }

  /** The low `n` bytes of `v`, least significant first: what a store of an `n`-byte integer leaves in memory. */
  function Le(v: nat, n: nat): (bs: seq<Byte>)
    ensures |bs| == n
  {
    if n == 0 then [] else [v % 256] + Le(v / 256, n - 1)
  }

  function FromLe(bs: seq<Byte>): nat {
    if bs == [] then 0 else bs[0] + 256 * FromLe(bs[1..])
  }

  function FromBe(bs: seq<Byte>): nat {
    if bs == [] then 0 else 256 * FromBe(bs[..|bs| - 1]) + bs[|bs| - 1]
  }

  function Reverse(bs: seq<Byte>): (r: seq<Byte>)
    ensures |r| == |bs|
    ensures forall i :: 0 <= i < |bs| ==> r[i] == bs[|bs| - 1 - i]
  {
    if bs == [] then [] else Reverse(bs[1..]) + [bs[0]]
  }

  /** The low `n` bytes of `v`, most significant first. */
  function Be(v: nat, n: nat): (bs: seq<Byte>)
    ensures |bs| == n
  {
    Reverse(Le(v, n))
  }

  lemma {:induction false} FromLeOfLe(v: nat, n: nat)
    requires v < Pow256(n)
    ensures FromLe(Le(v, n)) == v
  {
    if n == 0 {
    } else {
      FromLeOfLe(v / 256, n - 1);
    }
  }

  lemma LowByte(b: Byte, v: nat)
    ensures (b + 256 * v) % 256 == b && (b + 256 * v) / 256 == v
  {
  }

  lemma {:induction false} LeOfFromLe(bs: seq<Byte>)
    ensures Le(FromLe(bs), |bs|) == bs
    ensures FromLe(bs) < Pow256(|bs|)
  {
    if bs == [] {
    } else {
      LeOfFromLe(bs[1..]);
      var v := FromLe(bs[1..]);
      LowByte(bs[0], v);
      assert bs == [bs[0]] + bs[1..];
    }
  }

  lemma ReverseTwice(bs: seq<Byte>)
    ensures Reverse(Reverse(bs)) == bs
  {
  }

  lemma {:induction false} FromBeReverses(bs: seq<Byte>)
    ensures FromBe(bs) == FromLe(Reverse(bs))
  {
    if bs == [] {
    } else {
      var front := bs[..|bs| - 1];
      FromBeReverses(front);
      assert Reverse(bs)[1..] == Reverse(front);
    }
  }

  lemma FromBeOfBe(v: nat, n: nat)
    requires v < Pow256(n)
    ensures FromBe(Be(v, n)) == v
  {
    FromBeReverses(Be(v, n));
    ReverseTwice(Le(v, n));
    FromLeOfLe(v, n);
  }

  lemma FromBeBound(bs: seq<Byte>)
    ensures FromBe(bs) < Pow256(|bs|)
  {
    FromBeReverses(bs);
    LeOfFromLe(Reverse(bs));
  }

  lemma DivideTwice(v: nat, d: nat)
    requires d > 0
    ensures v / 256 / d == v / (256 * d)
  {
    var q, r := v / 256 / d, v / 256 % d;
    assert v / 256 == d * q + r;
    assert v == (256 * d) * q + (256 * r + v % 256);
    DivUnique(v, 256 * d, q, 256 * r + v % 256);
  }

  /** Each byte of either order is the base-256 digit its place says. */
  lemma {:induction false} ByteInPlace(v: nat, n: nat, i: nat)
    requires i < n
    ensures Le(v, n)[i] == v / Pow256(i) % 256
    ensures Be(v, n)[n - 1 - i] == v / Pow256(i) % 256
    decreases i
  {
    if i == 0 {
    } else {
      ByteInPlace(v / 256, n - 1, i - 1);
      DivideTwice(v, Pow256(i - 1));
      hide Pow256;
    }
  }

  lemma Pow256Values()
    ensures Pow256(1) == 0x100 && Pow256(2) == 0x10000 && Pow256(4) == 0x1_0000_0000
    ensures Pow256(8) == 0x1_0000_0000_0000_0000
  {
    assert Pow256(6) == 0x1_0000_0000_0000;
  }

  // ---------------------------------------------------------------- byte order conversion

  /** `htons`, `htonl` and `htonll` on a little-endian machine: the integer whose memory image is reversed. */
  function Swap(v: nat, n: nat): (r: nat)
    ensures r < Pow256(n)
  {
    FromBeBound(Le(v, n));
    FromBe(Le(v, n))
  }

  /** Storing the converted integer puts its bytes in network order. */
  lemma SwapReversesMemory(v: nat, n: nat)
    ensures Le(Swap(v, n), n) == Be(v, n)
  {
    FromBeReverses(Le(v, n));
    LeOfFromLe(Reverse(Le(v, n)));
  }

  /** Conversion is its own inverse. */
  lemma SwapTwice(v: nat, n: nat)
    requires v < Pow256(n)
    ensures Swap(Swap(v, n), n) == v
  {
    SwapReversesMemory(v, n);
    FromBeReverses(Be(v, n));
    ReverseTwice(Le(v, n));
    FromLeOfLe(v, n);
  }

  /** `mc_swap64`. */
  method Swap64(v: nat) returns (rv: nat)
    requires v < 0x1_0000_0000_0000_0000
    ensures rv < 0x1_0000_0000_0000_0000
    ensures rv == Swap(v, 8)
    ensures Le(rv, 8) == Reverse(Le(v, 8))
  {
    ghost var bs := Le(v, 8);
    rv := 0;
    var rest := v;
    for i := 0 to 8
      invariant rv == FromBe(bs[..i])
      invariant Le(rest, 8 - i) == bs[i..]
    {
      hide FromBe;
      FromBeBound(bs[..i]);
      Pow256Grows(i);
      ShiftIn(rv, rest);
      FromBeAppend(bs, i);
      assert bs[i..][0] == bs[i] && bs[i..][1..] == bs[i + 1..];
      assert Le(rest, 8 - i)[0] == rest % 256 && Le(rest, 8 - i)[1..] == Le(rest / 256, 7 - i);
      rv := Or(Shl(rv, 8) % 0x1_0000_0000_0000_0000, And(rest, 0xff));
      rest := Shr(rest, 8);
    }
    assert bs[..8] == bs;
    Pow256Values();
    SwapReversesMemory(v, 8);
  }

  lemma FromBeAppend(bs: seq<Byte>, i: nat)
    requires i < |bs|
    ensures FromBe(bs[..i + 1]) == 256 * FromBe(bs[..i]) + bs[i]
  {
    assert bs[..i + 1][..i] == bs[..i];
  }

  lemma Pow256Grows(i: nat)
    requires i < 8
    ensures 256 * Pow256(i) <= 0x1_0000_0000_0000_0000
  {
    Pow256Values();
    assert Pow256(3) == 0x1000000 && Pow256(5) == 0x100_0000_0000;
    assert Pow256(6) == 0x1_0000_0000_0000 && Pow256(7) == 0x100_0000_0000_0000;
  }

  /** `(rv << 8) | (in & 0xff)` appends the low byte of `in`, as long as nothing is shifted out. */
  lemma ShiftIn(rv: nat, rest: nat)
    ensures Shr(rest, 8) == rest / 256
    ensures 256 * rv + 255 < 0x1_0000_0000_0000_0000 ==>
      Or(Shl(rv, 8) % 0x1_0000_0000_0000_0000, And(rest, 0xff)) == 256 * rv + rest % 256
  {
    Pow2Values();
    hide *;
    ShrDivides(rest, 8);
    LowMask(rest, 8);
    ShlMultiplies(rv, 8);
    Disjoint(rv, rest % 256, 8);
  }
}
