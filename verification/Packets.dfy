/** The binary protocol's packet format (protocol_binary.h) and the walk over a stream of requests by header lengths. */
module Packets {
  import opened Words
  import opened Octets

  datatype Option<+T> = None | Some(value: T)

  const REQUEST_MAGIC: Byte := 0x80
  const RESPONSE_MAGIC: Byte := 0x81
  const HEADER_SIZE := 24
  const OPAQUE := 0xdeadbeef

  datatype Request = Request(opcode: Byte, extras: seq<Byte>, key: seq<Byte>, value: seq<Byte>) {
    function BodyLength(): nat {
      |extras| + |key| + |value|
    }

    /** The lengths fit the header's `uint16_t keylen`, `uint8_t extlen` and `uint32_t bodylen`. */
    predicate Fits() {
      |key| < 0x10000 && |extras| < 0x100 && BodyLength() < 0x1_0000_0000
    }
  }

  /**
   * The 24 bytes of a request header. Lengths are in network order and truncated to the width of their fields;
   * the opaque value is stored in host order; data type, reserved field and cas are zero.
   */
  function RequestHeader(opcode: Byte, keylen: nat, extlen: nat, bodylen: nat): (h: seq<Byte>)
    ensures |h| == HEADER_SIZE
  {
    [REQUEST_MAGIC, opcode] + Be(keylen, 2) + [extlen % 256, 0] + [0, 0] + Be(bodylen, 4) + Le(OPAQUE, 4)
      + [0, 0, 0, 0, 0, 0, 0, 0]
  }

  function Encode(r: Request): (bs: seq<Byte>)
    ensures |bs| == HEADER_SIZE + r.BodyLength()
  {
    RequestHeader(r.opcode, |r.key|, |r.extras|, r.BodyLength()) + r.extras + r.key + r.value
  }

  /** The packet at the front of `bs`, cut out by the lengths in its header. */
  function Decode(bs: seq<Byte>): Option<Request> {
    if |bs| < HEADER_SIZE || bs[0] != REQUEST_MAGIC then None else
    var keylen, extlen, bodylen := FromBe(bs[2..4]), bs[4], FromBe(bs[8..12]);
    if extlen + keylen > bodylen || HEADER_SIZE + bodylen > |bs| then None else
    var body := bs[HEADER_SIZE..HEADER_SIZE + bodylen];
    Some(Request(bs[1], body[..extlen], body[extlen..extlen + keylen], body[extlen + keylen..]))
  }

  /** All packets of a byte string, if it is a string of whole packets. */
  function Walk(bs: seq<Byte>): Option<seq<Request>>
    decreases |bs|
  {
    if bs == [] then Some([]) else
    match Decode(bs)
    case None => None
    case Some(r) =>
      match Walk(bs[HEADER_SIZE + FromBe(bs[8..12])..])
      case None => None
      case Some(rs) => Some([r] + rs)
  }

  function Stream(rs: seq<Request>): seq<Byte> {
    if rs == [] then [] else Encode(rs[0]) + Stream(rs[1..])
  }

  /** The 24 bytes of the header one by one: magic, opcode, lengths, the opaque value in host order, and zeros. */
  lemma HeaderFields(r: Request, rest: seq<Byte>)
    ensures var bs := Encode(r) + rest;
            && bs[0] == 0x80 && bs[1] == r.opcode && bs[4] == |r.extras| % 256
            && bs[2..4] == Be(|r.key|, 2) && bs[8..12] == Be(r.BodyLength(), 4)
            && bs[5..8] == [0, 0, 0] && bs[12..16] == [0xef, 0xbe, 0xad, 0xde] && bs[16..24] == [0, 0, 0, 0, 0, 0, 0, 0]
            && bs[24..] == r.extras + r.key + r.value + rest
  {
    OpaqueBytes();
    hide Be, Le;
    var bs := Encode(r) + rest;
    var h := RequestHeader(r.opcode, |r.key|, |r.extras|, r.BodyLength());
    assert bs == h + (r.extras + r.key + r.value + rest);
    assert bs[2..4] == h[2..4] && bs[8..12] == h[8..12];
    assert bs[5..8] == h[5..8] && bs[12..16] == h[12..16] && bs[16..24] == h[16..24];
  }

  lemma OpaqueBytes()
    ensures Le(OPAQUE, 4) == [0xef, 0xbe, 0xad, 0xde]
  {
  }

  /** Where the parts of a fitting packet stand. */
  lemma Layout(r: Request)
    requires r.Fits()
    ensures var bs := Encode(r);
            var k := 24 + |r.extras|;
            var d := k + |r.key|;
            && |bs| == d + |r.value| && bs[1] == r.opcode && bs[4] == |r.extras|
            && FromBe(bs[2..4]) == |r.key| && FromBe(bs[8..12]) == |bs| - 24
            && bs[24..k] == r.extras && bs[k..d] == r.key && bs[d..] == r.value
  {
    HeaderFields(r, []);
    DecodeEncodeFits(r, []);
    var bs := Encode(r);
    assert bs + [] == bs;
    hide Encode, FromBe;
    assert bs[24..] == r.extras + r.key + r.value;
    var k, d := 24 + |r.extras|, 24 + |r.extras| + |r.key|;
    assert bs[24..k] == bs[24..][..|r.extras|] && bs[k..d] == bs[24..][|r.extras|..|r.extras| + |r.key|];
    assert bs[d..] == bs[24..][|r.extras| + |r.key|..];
  }

  lemma DecodeEncodeFits(r: Request, rest: seq<Byte>)
    requires r.Fits()
    ensures Decode(Encode(r) + rest) == Some(r)
    ensures FromBe((Encode(r) + rest)[8..12]) == r.BodyLength()
  {
    HeaderFields(r, rest);
    Pow256Values();
    FromBeOfBe(|r.key|, 2);
    FromBeOfBe(r.BodyLength(), 4);
    var bs := Encode(r) + rest;
    var body := bs[HEADER_SIZE..HEADER_SIZE + r.BodyLength()];
    hide Encode, FromBe;
    assert body == r.extras + r.key + r.value;
    assert body[..|r.extras|] == r.extras;
    assert body[|r.extras|..|r.extras| + |r.key|] == r.key;
    assert body[|r.extras| + |r.key|..] == r.value;
  }

  /** A packet survives encoding if and only if its lengths fit their header fields. */
  lemma RoundTrip(r: Request, rest: seq<Byte>)
    ensures Decode(Encode(r) + rest) == Some(r) <==> r.Fits()
  {
    if r.Fits() {
      DecodeEncodeFits(r, rest);
    } else if Decode(Encode(r) + rest) == Some(r) {
      var bs := Encode(r) + rest;
      Pow256Values();
      FromBeBound(bs[2..4]);
      FromBeBound(bs[8..12]);
      assert false;
    }
  }

  /** Walking the concatenation of fitting packets by their header lengths recovers every one of them, in order. */
  lemma {:induction false} WalkRecovers(rs: seq<Request>)
    requires forall r :: r in rs ==> r.Fits()
    ensures Walk(Stream(rs)) == Some(rs)
  {
    if rs == [] {
    } else {
      var rest := Stream(rs[1..]);
      var bs := Encode(rs[0]) + rest;
      DecodeEncodeFits(rs[0], rest);
      WalkRecovers(rs[1..]);
      hide Encode, Decode, FromBe;
      assert bs[HEADER_SIZE + rs[0].BodyLength()..] == rest;
      assert rs == [rs[0]] + rs[1..];
    }
  }

  lemma {:induction false} StreamAppend(rs: seq<Request>, r: Request)
    ensures Stream(rs + [r]) == Stream(rs) + Encode(r)
  {
    if rs == [] {
    } else {
      StreamAppend(rs[1..], r);
      assert (rs + [r])[1..] == rs[1..] + [r];
    }
  }
}
