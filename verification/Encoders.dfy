/** The request encoders of testapp.c, which fill a caller's buffer in place. */
module Encoders {
  import opened Words
  import opened Octets
  import opened Packets

  /** A pointer and length argument; for NULL the code reserves the space and copies nothing. */
  datatype Field = Missing(len: nat) | Present(bytes: seq<Byte>) {
    function Length(): nat {
      match this
      case Missing(len) => len
      case Present(bytes) => |bytes|
    }

    /** What stands in the field's place afterwards, given what stood there before. */
    function Over(before: seq<Byte>): (after: seq<Byte>)
      ensures |before| == Length() ==> |after| == Length()
    {
      if Present? then bytes else before
    }
  }

  /** The contents of a buffer with `bs` written at offset `at`. */
  function Patched(s: seq<Byte>, at: nat, bs: seq<Byte>): (r: seq<Byte>)
    requires at + |bs| <= |s|
    ensures |r| == |s|
  {
    s[..at] + bs + s[at + |bs|..]
  }

  /** `memcpy`, and the store of an integer given as its memory image. */
  method Put(buf: array<Byte>, at: nat, bs: seq<Byte>)
    requires at + |bs| <= buf.Length
    modifies buf
    ensures buf[..] == Patched(old(buf[..]), at, bs)
  {
    for i := 0 to |bs|
      invariant forall j :: 0 <= j < i ==> buf[at + j] == bs[j]
      invariant forall j :: 0 <= j < buf.Length && !(at <= j < at + i) ==> buf[j] == old(buf[j])
    {
      buf[at + i] := bs[i];
    }
  }

  function Zeros(n: nat): (z: seq<Byte>)
    ensures |z| == n && forall i :: 0 <= i < n ==> z[i] == 0
  {
    seq(n, _ => 0)
  }

  /** `memset` of the request structure and the header stores every encoder makes. */
  method FillHeader(buf: array<Byte>, size: nat, cmd: Byte, keylen: nat, extlen: nat, bodylen: nat)
    requires HEADER_SIZE <= size <= buf.Length
    modifies buf
    ensures buf[..] == RequestHeader(cmd, keylen, extlen, bodylen) + Zeros(size - HEADER_SIZE) + old(buf[size..])
  {
    ghost var s := buf[..];
    Put(buf, 0, Zeros(size));
    Put(buf, 0, [REQUEST_MAGIC, cmd]);
    Put(buf, 2, Le(Swap(keylen, 2), 2));
    Put(buf, 4, [extlen % 256]);
    Put(buf, 8, Le(Swap(bodylen, 4), 4));
    Put(buf, 12, Le(OPAQUE, 4));
    SwapReversesMemory(keylen, 2);
    SwapReversesMemory(bodylen, 4);
    HeaderStores(s, size, cmd, Be(keylen, 2), extlen % 256, Be(bodylen, 4), Le(OPAQUE, 4));
    assert s[size..] == old(buf[size..]);
  }

  lemma HeaderStores(s: seq<Byte>, size: nat, cmd: Byte, keylen: seq<Byte>, extlen: Byte, bodylen: seq<Byte>, opaq: seq<Byte>)
    requires HEADER_SIZE <= size <= |s| && |keylen| == 2 && |bodylen| == 4 && |opaq| == 4
    ensures Patched(Patched(Patched(Patched(Patched(Patched(
              s, 0, Zeros(size)), 0, [REQUEST_MAGIC, cmd]), 2, keylen), 4, [extlen]), 8, bodylen), 12, opaq)
         == [REQUEST_MAGIC, cmd] + keylen + [extlen, 0] + [0, 0] + bodylen + opaq + [0, 0, 0, 0, 0, 0, 0, 0]
            + Zeros(size - HEADER_SIZE) + s[size..]
  {
    var z := Patched(s, 0, Zeros(size));
    assert z == Zeros(size) + s[size..];
    var a := Patched(z, 0, [REQUEST_MAGIC, cmd]);
    assert a == [REQUEST_MAGIC, cmd] + Zeros(size - 2) + s[size..];
    var b := Patched(a, 2, keylen);
    assert b == [REQUEST_MAGIC, cmd] + keylen + Zeros(size - 4) + s[size..];
    var c := Patched(b, 4, [extlen]);
    assert c == [REQUEST_MAGIC, cmd] + keylen + [extlen] + Zeros(size - 5) + s[size..];
    var d := Patched(c, 8, bodylen);
    assert d == [REQUEST_MAGIC, cmd] + keylen + [extlen, 0] + [0, 0] + bodylen + Zeros(size - 12) + s[size..];
  }

  // ---------------------------------------------------------------- filling from the front

  /** The buffer holds `front`, and after it what `s` has there. */
  ghost predicate Begins(contents: seq<Byte>, front: seq<Byte>, s: seq<Byte>) {
    |front| <= |s| && contents == front + s[|front|..]
  }

  /**
   * `sizeof` a request structure with `n` bytes of extras: the header's `uint64_t cas` aligns the structure to eight
   * bytes, so its size is padded to a multiple of eight.
   */
  function SizeOf(n: nat): (size: nat)
    ensures size % 8 == 0 && HEADER_SIZE + n <= size < HEADER_SIZE + n + 8
  {
    (HEADER_SIZE + n + 7) / 8 * 8
  }

  /** A buffer after `memset` has cleared its first `size` bytes. */
  ghost function Cleared(s: seq<Byte>, size: nat): (r: seq<Byte>)
    requires size <= |s|
    ensures |r| == |s|
  {
    Zeros(size) + s[size..]
  }

  method Start(buf: array<Byte>, size: nat, cmd: Byte, keylen: nat, extlen: nat, bodylen: nat)
    requires HEADER_SIZE <= size <= buf.Length
    modifies buf
    ensures Begins(buf[..], RequestHeader(cmd, keylen, extlen, bodylen), Cleared(old(buf[..]), size))
  {
    hide RequestHeader;
    ghost var s := buf[..];
    FillHeader(buf, size, cmd, keylen, extlen, bodylen);
    assert Cleared(s, size)[HEADER_SIZE..] == Zeros(size - HEADER_SIZE) + s[size..];
  }

  method Append(buf: array<Byte>, at: nat, bs: seq<Byte>, ghost front: seq<Byte>, ghost s: seq<Byte>)
    requires at == |front| && at + |bs| <= buf.Length && Begins(buf[..], front, s)
    modifies buf
    ensures Begins(buf[..], front + bs, s)
  {
    Put(buf, at, bs);
    assert Patched(front + s[at..], at, bs) == front + bs + s[at + |bs|..];
  }

  lemma Skip(contents: seq<Byte>, front: seq<Byte>, s: seq<Byte>, n: nat)
    requires Begins(contents, front, s) && |front| + n <= |s|
    ensures Begins(contents, front + s[|front|..|front| + n], s)
  {
  }

  /** Write a field that is present, leave the bytes of one that is NULL. */
  method AppendField(buf: array<Byte>, at: nat, f: Field, ghost front: seq<Byte>, ghost s: seq<Byte>)
    requires at == |front| && at + f.Length() <= buf.Length == |s| && Begins(buf[..], front, s)
    modifies buf
    ensures Begins(buf[..], front + f.Over(s[at..at + f.Length()]), s)
  {
    hide Begins;
    if f.Present? {
      Append(buf, at, f.bytes, front, s);
    } else {
      Skip(buf[..], front, s, f.len);
    }
  }

  lemma Filled(contents: seq<Byte>, front: seq<Byte>, s: seq<Byte>, size: nat)
    requires size <= |s| && Begins(contents, front, Cleared(s, size))
    ensures contents[..|front|] == front
    ensures contents[|front|..] == Cleared(s, size)[|front|..]
  {
  }

  /** What clearing and writing mean, byte by byte. */
  lemma BytesAfter(s: seq<Byte>, size: nat, at: nat, bs: seq<Byte>, i: nat)
    requires size <= |s| && at + |bs| <= |s| && i < |s|
    ensures Cleared(s, size)[i] == if i < size then 0 else s[i]
    ensures Patched(s, at, bs)[i] == if at <= i < at + |bs| then bs[i - at] else s[i]
  {
  }

  lemma ClearedBeyond(s: seq<Byte>, size: nat, lo: nat, hi: nat)
    requires size <= lo <= hi <= |s|
    ensures Cleared(s, size)[lo..hi] == s[lo..hi]
  {
  }

  // ---------------------------------------------------------------- the encoders

  /** `ext_command`: header, extras, key and value, those that are NULL left as the buffer had them. */
  method ExtCommand(buf: array<Byte>, cmd: Byte, ext: Field, key: Field, dta: Field) returns (len: nat)
    requires buf.Length > HEADER_SIZE + ext.Length() + key.Length() + dta.Length()
    modifies buf
    ensures len == HEADER_SIZE + ext.Length() + key.Length() + dta.Length()
    ensures var k := HEADER_SIZE + ext.Length();
            var d := k + key.Length();
            var s := old(buf[..]);
            buf[..len] == Encode(Request(cmd, ext.Over(s[HEADER_SIZE..k]), key.Over(s[k..d]),
                                         dta.Over(s[d..d + dta.Length()])))
    ensures buf[len..] == old(buf[..])[len..]
  {
    hide RequestHeader, Begins, Cleared, Encode, Zeros, Field.Over;
    len := HEADER_SIZE + ext.Length() + key.Length() + dta.Length();
    ghost var s := buf[..];
    ghost var h := RequestHeader(cmd, key.Length(), ext.Length(), ext.Length() + key.Length() + dta.Length());
    Start(buf, HEADER_SIZE, cmd, key.Length(), ext.Length(), ext.Length() + key.Length() + dta.Length());
    ghost var e, k, d := AppendFields(buf, HEADER_SIZE, ext, key, dta, h, s);
    FilledRequest(buf[..], Request(cmd, e, k, d), s, HEADER_SIZE);
    assert buf[..len] == buf[..][..len] && buf[len..] == buf[..][len..];
  }

  /** Extras, key and value, one after the other, into a buffer that was `s` and is cleared up to `at`. */
  method AppendFields(buf: array<Byte>, at: nat, ext: Field, key: Field, dta: Field, ghost front: seq<Byte>, ghost s: seq<Byte>)
    returns (ghost e: seq<Byte>, ghost k: seq<Byte>, ghost d: seq<Byte>)
    requires at == |front| && at + ext.Length() + key.Length() + dta.Length() <= buf.Length == |s|
    requires Begins(buf[..], front, Cleared(s, at))
    modifies buf
    ensures e == ext.Over(s[at..at + ext.Length()]) && |e| == ext.Length()
    ensures var at' := at + ext.Length();
            k == key.Over(s[at'..at' + key.Length()]) && |k| == key.Length()
    ensures var at' := at + ext.Length() + key.Length();
            d == dta.Over(s[at'..at' + dta.Length()]) && |d| == dta.Length()
    ensures Begins(buf[..], front + e + k + d, Cleared(s, at))
  {
    hide Begins, Cleared, Field.Over;
    ghost var z := Cleared(s, at);
    var keyOffset := at + ext.Length();
    var dtaOffset := keyOffset + key.Length();
    var end := dtaOffset + dta.Length();
    ClearedBeyond(s, at, at, keyOffset);
    ClearedBeyond(s, at, keyOffset, dtaOffset);
    ClearedBeyond(s, at, dtaOffset, end);
    e, k, d := ext.Over(s[at..keyOffset]), key.Over(s[keyOffset..dtaOffset]), dta.Over(s[dtaOffset..end]);
    AppendField(buf, at, ext, front, z);
    AppendField(buf, keyOffset, key, front + e, z);
    AppendField(buf, dtaOffset, dta, front + e + k, z);
  }

  lemma FilledRequest(contents: seq<Byte>, r: Request, s: seq<Byte>, size: nat)
    requires size <= |s|
    requires Begins(contents, RequestHeader(r.opcode, |r.key|, |r.extras|, r.BodyLength()) + r.extras + r.key + r.value,
                    Cleared(s, size))
    ensures var len := HEADER_SIZE + r.BodyLength();
            && |contents| == |s| >= len && contents[..len] == Encode(r)
            && contents[len..] == Cleared(s, size)[len..]
            && (len >= size ==> contents[len..] == s[len..])
  {
    hide RequestHeader;
    Filled(contents, Encode(r), s, size);
  }

  /** `raw_command`: no extras. */
  method RawCommand(buf: array<Byte>, cmd: Byte, key: Field, dta: Field) returns (len: nat)
    requires buf.Length > HEADER_SIZE + key.Length() + dta.Length()
    modifies buf
    ensures len == HEADER_SIZE + key.Length() + dta.Length()
    ensures var d := HEADER_SIZE + key.Length();
            var s := old(buf[..]);
            buf[..len] == Encode(Request(cmd, [], key.Over(s[HEADER_SIZE..d]), dta.Over(s[d..len])))
    ensures buf[len..] == old(buf[..])[len..]
  {
    hide Encode;
    len := ExtCommand(buf, cmd, Missing(0), key, dta);
  }

  /** `storage_command`: eight bytes of extras, the flags and the expiration, both in host order. */
  method StorageCommand(buf: array<Byte>, cmd: Byte, key: seq<Byte>, dta: Field, flags: Word, exp: Word)
    returns (len: nat)
    requires buf.Length > HEADER_SIZE + 8 + |key| + dta.Length()
    modifies buf
    ensures len == HEADER_SIZE + 8 + |key| + dta.Length()
    ensures var d := HEADER_SIZE + 8 + |key|;
            buf[..len] == Encode(Request(cmd, Le(flags, 4) + Le(exp, 4), key, dta.Over(old(buf[..])[d..d + dta.Length()])))
    ensures buf[len..] == old(buf[..])[len..]
  {
    hide RequestHeader, Begins, Cleared, Le, Encode, Zeros;
    var size := SizeOf(8);
    len := size + |key| + dta.Length();
    ghost var s := buf[..];
    ghost var z := Cleared(s, size);
    ghost var h := RequestHeader(cmd, |key|, 8, |key| + 8 + dta.Length());
    Start(buf, size, cmd, |key|, 8, |key| + 8 + dta.Length());
    Append(buf, HEADER_SIZE, Le(flags, 4), h, z);
    Append(buf, HEADER_SIZE + 4, Le(exp, 4), h + Le(flags, 4), z);
    ghost var e := Le(flags, 4) + Le(exp, 4);
    assert h + Le(flags, 4) + Le(exp, 4) == h + e;
    Append(buf, size, key, h + e, z);
    ClearedBeyond(s, size, size + |key|, len);
    AppendField(buf, size + |key|, dta, h + e + key, z);
    ghost var d := dta.Over(s[size + |key|..len]);
    FilledRequest(buf[..], Request(cmd, e, key, d), s, size);
  }

  /** `flush_command`: the expiration, in network order, is optional; the whole padded structure is cleared either way. */
  method FlushCommand(buf: array<Byte>, cmd: Byte, exptime: Word, useExtra: bool) returns (len: nat)
    requires buf.Length > SizeOf(4)
    modifies buf
    ensures len == HEADER_SIZE + if useExtra then 4 else 0
    ensures buf[..len] == Encode(Request(cmd, if useExtra then Be(exptime, 4) else [], [], []))
    ensures buf[len..] == Cleared(old(buf[..]), SizeOf(4))[len..]
  {
    hide RequestHeader, Begins, Cleared, Le, Be, Swap, Encode, SizeOf;
    var size := SizeOf(4);
    ghost var s := buf[..];
    len := HEADER_SIZE;
    if useExtra {
      Start(buf, size, cmd, 0, 4, 4);
      SwapReversesMemory(exptime, 4);
      ghost var h := RequestHeader(cmd, 0, 4, 4);
      Append(buf, HEADER_SIZE, Le(Swap(exptime, 4), 4), h, Cleared(s, size));
      assert h + Be(exptime, 4) + [] + [] == h + Be(exptime, 4);
      FilledRequest(buf[..], Request(cmd, Be(exptime, 4), [], []), s, size);
      len := len + 4;
    } else {
      Start(buf, size, cmd, 0, 0, 0);
      assert RequestHeader(cmd, 0, 0, 0) + [] + [] + [] == RequestHeader(cmd, 0, 0, 0);
      FilledRequest(buf[..], Request(cmd, [], [], []), s, size);
    }
  }

  /**
   * `touch_command`: four bytes of extras, in network order. Its assertion leaves the key out of account, so the copy
   * of the key runs past the buffer if and only if 28 bytes and the key do not fit; the model then stops before the copy.
   */
  method TouchCommand(buf: array<Byte>, cmd: Byte, key: seq<Byte>, exptime: Word) returns (len: nat, overrun: bool)
    requires buf.Length > SizeOf(4)
    modifies buf
    ensures len == HEADER_SIZE + 4 + |key|
    ensures overrun <==> len > buf.Length
    ensures !overrun ==> buf[..len] == Encode(Request(cmd, Be(exptime, 4), key, []))
    ensures !overrun ==> buf[len..] == Cleared(old(buf[..]), SizeOf(4))[len..]
    ensures overrun ==> buf[..] == RequestHeader(cmd, |key|, 4, |key| + 4) + Be(exptime, 4)
                                   + Cleared(old(buf[..]), SizeOf(4))[HEADER_SIZE + 4..]
  {
    hide RequestHeader, Cleared, Le, Be, Swap, Encode, SizeOf;
    var size := SizeOf(4);
    ghost var s := buf[..];
    ghost var z := Cleared(s, size);
    ghost var h := RequestHeader(cmd, |key|, 4, |key| + 4);
    Start(buf, size, cmd, |key|, 4, |key| + 4);
    SwapReversesMemory(exptime, 4);
    Append(buf, HEADER_SIZE, Le(Swap(exptime, 4), 4), h, z);
    len := HEADER_SIZE + 4 + |key|;
    overrun := len > buf.Length;
    if !overrun {
      Append(buf, HEADER_SIZE + 4, key, h + Be(exptime, 4), z);
      assert h + Be(exptime, 4) + key + [] == h + Be(exptime, 4) + key;
      FilledRequest(buf[..], Request(cmd, Be(exptime, 4), key, []), s, size);
    }
  }

  type Word64 = x: nat | x < 0x1_0000_0000_0000_0000

  /** `arithmetic_command`: delta at offset 24, initial value at 32 and expiration at 40, all in network order. */
  method ArithmeticCommand(buf: array<Byte>, cmd: Byte, key: seq<Byte>, delta: Word64, initial: Word64, exp: Word)
    returns (len: nat)
    requires buf.Length > SizeOf(20) + |key|
    modifies buf
    ensures len == HEADER_SIZE + 20 + |key|
    ensures buf[..len] == Encode(Request(cmd, Be(delta, 8) + Be(initial, 8) + Be(exp, 4), key, []))
    ensures buf[len..] == Cleared(old(buf[..]), SizeOf(20))[len..]
  {
    hide RequestHeader, Begins, Cleared, Le, Be, Swap, Encode, SizeOf;
    var size := SizeOf(20);
    ghost var s := buf[..];
    ghost var z := Cleared(s, size);
    ghost var h := RequestHeader(cmd, |key|, 20, |key| + 20);
    Start(buf, size, cmd, |key|, 20, |key| + 20);
    var d := Swap64(delta);
    var i := Swap64(initial);
    SwapReversesMemory(delta, 8);
    SwapReversesMemory(initial, 8);
    SwapReversesMemory(exp, 4);
    Append(buf, HEADER_SIZE, Le(d, 8), h, z);
    Append(buf, HEADER_SIZE + 8, Le(i, 8), h + Be(delta, 8), z);
    Append(buf, HEADER_SIZE + 16, Le(Swap(exp, 4), 4), h + Be(delta, 8) + Be(initial, 8), z);
    ghost var e := Be(delta, 8) + Be(initial, 8) + Be(exp, 4);
    assert h + Be(delta, 8) + Be(initial, 8) + Be(exp, 4) == h + e;
    Append(buf, HEADER_SIZE + 20, key, h + e, z);
    len := HEADER_SIZE + 20 + |key|;
    assert h + e + key + [] == h + e + key;
    FilledRequest(buf[..], Request(cmd, e, key, []), s, size);
  }

  /** The sizes on the recorded 64-bit build. */
  lemma StructureSizes()
    ensures SizeOf(0) == 24 && SizeOf(8) == 32 && SizeOf(4) == 32 && SizeOf(20) == 48
  {
  }

  // ---------------------------------------------------------------- the byte order of the extras

  /** Loading the eight bytes at offset 24, or at 32, and applying `ntohll` gives the numbers back. */
  lemma ArithmeticNumbersRecovered(cmd: Byte, key: seq<Byte>, delta: Word64, initial: Word64, exp: Word)
    ensures var bs := Encode(Request(cmd, Be(delta, 8) + Be(initial, 8) + Be(exp, 4), key, []));
            && Swap(FromLe(bs[24..32]), 8) == delta
            && Swap(FromLe(bs[32..40]), 8) == initial
  {
    hide Le, Be, Swap, RequestHeader;
    var bs := Encode(Request(cmd, Be(delta, 8) + Be(initial, 8) + Be(exp, 4), key, []));
    assert bs[24..32] == Be(delta, 8) && bs[32..40] == Be(initial, 8);
    Recovered(delta);
    Recovered(initial);
  }

  lemma Recovered(v: Word64)
    ensures Swap(FromLe(Be(v, 8)), 8) == v
  {
    Pow256Values();
    SwapReversesMemory(v, 8);
    FromLeOfLe(Swap(v, 8), 8);
    SwapTwice(v, 8);
  }

  /**
   * `storage_command` converts neither the flags, at offset 24 of the packet, nor the expiration, at offset 28: a receiver
   * that reads a field in network order gets the caller's value if and only if its four bytes read the same in both
   * directions.
   */
  lemma StorageFlagsNotConverted(cmd: Byte, flags: Word, exp: Word, key: seq<Byte>, value: seq<Byte>)
    ensures var bs := Encode(Request(cmd, Le(flags, 4) + Le(exp, 4), key, value));
            && (FromBe(bs[24..28]) == flags <==> Le(flags, 4) == Be(flags, 4))
            && (FromBe(bs[28..32]) == exp <==> Le(exp, 4) == Be(exp, 4))
  {
    hide Le, Be, FromBe, RequestHeader;
    var bs := Encode(Request(cmd, Le(flags, 4) + Le(exp, 4), key, value));
    assert bs[24..28] == Le(flags, 4) && bs[28..32] == Le(exp, 4);
    HostOrderReadAsNetwork(flags);
    HostOrderReadAsNetwork(exp);
  }

  lemma HostOrderReadAsNetwork(v: Word)
    ensures FromBe(Le(v, 4)) == v <==> Le(v, 4) == Be(v, 4)
  {
    Pow256Values();
    FromLeOfLe(v, 4);
    FromBeReverses(Le(v, 4));
    LeOfFromLe(Reverse(Le(v, 4)));
  }

  lemma StorageFlagsExample()
    ensures FromBe(Le(1, 4)) == 0x1000000
  {
    assert Le(1, 4) == [1, 0, 0, 0];
    assert FromBe([1]) == 1 && FromBe([1, 0]) == 0x100 by {
      assert [1, 0][..1] == [1];
    }
    assert [1, 0, 0][..2] == [1, 0] && [1, 0, 0, 0][..3] == [1, 0, 0];
  }
}
