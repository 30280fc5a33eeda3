/** Sending and receiving whole packets over a socket that transfers what it likes (testapp.c). */
module Transport {
  import opened Words
  import opened Octets
  import opened Packets
  import opened Encoders

  // ---------------------------------------------------------------- sending

  /** What `write` may do: accept up to `n` bytes, be interrupted, or fail. */
  datatype WriteEvent = Accepts(n: nat) | WriteInterrupted | WriteFails

  /** `Waiting` means that the modelled events ran out while the loop was still going. */
  datatype SendOutcome = Sent | SendAborted | SendWaiting

  function Progressing(script: seq<WriteEvent>): nat {
    if script == [] then 0
    else (if script[0].Accepts? && script[0].n > 0 then 1 else 0) + Progressing(script[1..])
  }

  function Min(x: nat, y: nat): nat {
    if x < y then x else y
  }

  /**
   * `safe_send`. Whatever the pieces, the wire carries a prefix of the data, all of it on success; without a failing
   * write, as many progressing writes as there are bytes suffice, and one call of any kind for an empty message.
   * `asked` lists the sizes the calls of `write` were given: never more than 1024 with hickups, all of it at first without.
   */
  method SafeSend(buf: seq<Byte>, hickup: bool, random: nat -> nat, script: seq<WriteEvent>)
    returns (wire: seq<Byte>, outcome: SendOutcome, ghost asked: seq<nat>)
    ensures wire <= buf
    ensures outcome.Sent? ==> wire == buf
    ensures outcome.SendAborted? ==> WriteFails in script
    ensures WriteFails !in script && Progressing(script) >= |buf| && script != [] ==> outcome.Sent?
    ensures |asked| <= |script| && (!hickup && asked != [] ==> asked[0] == |buf|)
    ensures forall n :: n in asked ==> n <= |buf| && (hickup ==> n <= 1024) && (buf != [] ==> n > 0)
  {
    wire, asked := [], [];
    var i := 0;
    while i < |script|
      invariant i <= |script| && wire <= buf
      invariant i > 0 ==> |wire| < |buf|
      invariant |asked| == i && (i == 0 ==> wire == []) && (!hickup && asked != [] ==> asked[0] == |buf|)
      invariant forall n :: n in asked ==> n <= |buf| && (hickup ==> n <= 1024) && (buf != [] ==> n > 0)
      invariant Progressing(script[i..]) + |wire| >= Progressing(script)
    {
      assert script[i..][0] == script[i] && script[i..][1..] == script[i + 1..];
      var numBytes := |buf| - |wire|;
      if hickup && numBytes > 1024 {
        numBytes := random(i) % 1023 + 1;
      }
      asked := asked + [numBytes];
      match script[i] {
        case WriteFails => return wire, SendAborted, asked;
        case WriteInterrupted =>
        case Accepts(n) =>
          var nw := Min(n, numBytes);
          wire := wire + buf[|wire|..|wire| + nw];
      }
      i := i + 1;
      if |wire| >= |buf| {
        return wire, Sent, asked;
      }
    }
    outcome := SendWaiting;
  }

  // ---------------------------------------------------------------- receiving

  /** What `read` may do: return up to `most + 1` of the bytes asked for, be interrupted, or fail. */
  datatype ReadEvent = Delivers(most: nat) | ReadInterrupted | ReadFails

  datatype ReadResult = Got(bytes: seq<Byte>) | Interrupted | Failed | NoEvent

  datatype RecvOutcome = Received | Closed | RecvAborted | Overrun | RecvWaiting

  function Deliveries(script: seq<ReadEvent>): nat {
    if script == [] then 0 else (if script[0].Delivers? then 1 else 0) + Deliveries(script[1..])
  }

  /**
   * No read fails and there are deliveries enough for the bytes one by one and the end of the stream,
   * whatever the sizes of the pieces and wherever interruptions fall.
   */
  predicate Flowing(script: seq<ReadEvent>, pending: seq<Byte>) {
    ReadFails !in script && Deliveries(script) > |pending|
  }

  /** A connection: the bytes the peer has sent and the client not yet read, after which the peer closed. */
  class Socket {
    var pending: seq<Byte>
    var script: seq<ReadEvent>

    constructor (bytes: seq<Byte>, events: seq<ReadEvent>)
      ensures pending == bytes && script == events
    {
      pending, script := bytes, events;
    }

    method Read(want: nat) returns (r: ReadResult)
      requires want > 0
      modifies this
      ensures r.Got? ==> r.bytes + pending == old(pending) && |r.bytes| <= want
      ensures r.Got? ==> (r.bytes == [] <==> old(pending) == [])
      ensures !r.Got? ==> pending == old(pending)
      ensures r.NoEvent? <==> old(script) == []
      ensures r.NoEvent? ==> script == []
      ensures !r.NoEvent? ==> script == old(script)[1..]
      ensures ReadFails !in old(script) ==> ReadFails !in script && !r.Failed?
      ensures Deliveries(old(script)) == Deliveries(script) + if r.Got? then 1 else 0
    {
      if script == [] {
        return NoEvent;
      }
      var event := script[0];
      script := script[1..];
      match event {
        case ReadFails => r := Failed;
        case ReadInterrupted => r := Interrupted;
        case Delivers(most) =>
          var nr := Min(Min(most + 1, want), |pending|);
          r := Got(pending[..nr]);
          pending := pending[nr..];
      }
    }
  }

  lemma NothingPatched(s: seq<Byte>, at: nat)
    requires at <= |s|
    ensures Patched(s, at, []) == s
  {
  }

  lemma PatchedTwice(s: seq<Byte>, at: nat, x: seq<Byte>, y: seq<Byte>)
    requires at + |x| + |y| <= |s|
    ensures Patched(Patched(s, at, x), at + |x|, y) == Patched(s, at, x + y)
  {
  }

  /** `safe_recv` into `buf` at offset `at`. */
  method SafeRecv(sock: Socket, buf: array<Byte>, at: nat, len: nat, allowClosed: bool) returns (outcome: RecvOutcome)
    requires at + len <= buf.Length
    modifies sock, buf
    ensures outcome.Received? ==> |old(sock.pending)| >= len
    ensures outcome.Received? ==> buf[..] == Patched(old(buf[..]), at, old(sock.pending)[..len])
    ensures outcome.Received? ==> sock.pending == old(sock.pending)[len..]
    ensures outcome.Closed? ==> allowClosed && |old(sock.pending)| < len
    ensures !outcome.Overrun?
    ensures |sock.script| <= |old(sock.script)| && (len > 0 && outcome.Received? ==> |sock.script| < |old(sock.script)|)
    ensures Flowing(old(sock.script), old(sock.pending)) ==>
              if |old(sock.pending)| < len then outcome == (if allowClosed then Closed else RecvAborted)
              else outcome.Received? && Flowing(sock.script, sock.pending)
  {
    hide Patched;
    ghost var all := sock.pending;
    ghost var was := buf[..];
    var offset: nat := 0;
    NothingPatched(was, at);
    while offset < len
      invariant offset <= len && offset <= |all| && sock.pending == all[offset..]
      invariant buf[..] == Patched(was, at, all[..offset])
      invariant |sock.script| <= |old(sock.script)| && (offset > 0 ==> |sock.script| < |old(sock.script)|)
      invariant ReadFails !in old(sock.script) ==> ReadFails !in sock.script
      invariant Deliveries(sock.script) + offset >= Deliveries(old(sock.script))
      decreases |sock.script|
    {
      var r := sock.Read(len - offset);
      match r {
        case NoEvent => return RecvWaiting;
        case Failed => return RecvAborted;
        case Interrupted =>
        case Got(bytes) =>
          if bytes == [] {
            return if allowClosed then Closed else RecvAborted;
          }
          assert all[..offset] + bytes == all[..offset + |bytes|];
          PatchedTwice(was, at, all[..offset], bytes);
          Put(buf, at + offset, bytes);
          offset := offset + |bytes|;
      }
    }
    return Received;
  }

  /** A header with `keylen`, `status` and `bodylen` turned from network to host order. */
  function HostOrder(h: seq<Byte>): (r: seq<Byte>)
    requires |h| == HEADER_SIZE
    ensures |r| == HEADER_SIZE
  {
    h[..2] + Reverse(h[2..4]) + h[4..6] + Reverse(h[6..8]) + Reverse(h[8..12]) + h[12..]
  }

  /** `x = ntohs(x)`, `x = ntohl(x)`: load, convert, store. */
  method ConvertInPlace(buf: array<Byte>, at: nat, n: nat)
    requires at + n <= buf.Length
    modifies buf
    ensures buf[..] == Patched(old(buf[..]), at, Reverse(old(buf[at..at + n])))
  {
    var x := FromLe(buf[at..at + n]);
    SwapReversesMemory(x, n);
    LeOfFromLe(buf[at..at + n]);
    Put(buf, at, Le(Swap(x, n), n));
  }

  lemma ConvertedHeader(s: seq<Byte>, h: seq<Byte>)
    requires |h| == HEADER_SIZE <= |s|
    ensures var s1 := Patched(s, 0, h);
            var s2 := Patched(s1, 2, Reverse(s1[2..4]));
            var s3 := Patched(s2, 6, Reverse(s2[6..8]));
            Patched(s3, 8, Reverse(s3[8..12])) == Patched(s, 0, HostOrder(h))
  {
    hide Reverse;
    var t := s[HEADER_SIZE..];
    var s1 := Patched(s, 0, h);
    assert s1 == h + t && s1[2..4] == h[2..4];
    var s2 := Patched(s1, 2, Reverse(h[2..4]));
    assert s2 == h[..2] + Reverse(h[2..4]) + h[4..] + t && s2[6..8] == h[6..8];
    var s3 := Patched(s2, 6, Reverse(h[6..8]));
    assert s3 == h[..2] + Reverse(h[2..4]) + h[4..6] + Reverse(h[6..8]) + h[8..] + t && s3[8..12] == h[8..12];
  }

  /** The first packet of a byte string as `safe_recv_packet` leaves it in the buffer. */
  function FirstPacket(bs: seq<Byte>): seq<Byte>
    requires WholePacket(bs)
  {
    HostOrder(bs[..HEADER_SIZE]) + bs[HEADER_SIZE..PacketLength(bs)]
  }

  function PacketLength(bs: seq<Byte>): nat
    requires |bs| >= HEADER_SIZE
  {
    HEADER_SIZE + FromBe(bs[8..12])
  }

  predicate WholePacket(bs: seq<Byte>) {
    |bs| >= HEADER_SIZE && |bs| >= PacketLength(bs)
  }

  /** `safe_recv_packet`; a body that does not fit would be written past the buffer, which the model reports instead. */
  method SafeRecvPacket(sock: Socket, buf: array<Byte>, allowClosed: bool) returns (outcome: RecvOutcome)
    requires buf.Length > HEADER_SIZE
    modifies sock, buf
    ensures outcome.Received? ==> WholePacket(old(sock.pending)) && PacketLength(old(sock.pending)) <= buf.Length
    ensures outcome.Received? ==> buf[..PacketLength(old(sock.pending))] == FirstPacket(old(sock.pending))
    ensures outcome.Received? ==> sock.pending == old(sock.pending)[PacketLength(old(sock.pending))..]
    ensures outcome.Closed? ==> !WholePacket(old(sock.pending))
    ensures outcome.Received? ==> |sock.script| < |old(sock.script)|
    ensures outcome.Overrun? ==>
              |old(sock.pending)| >= HEADER_SIZE && PacketLength(old(sock.pending)) > buf.Length
    ensures Flowing(old(sock.script), old(sock.pending)) ==>
              var cut := if allowClosed then Closed else RecvAborted;
              if |old(sock.pending)| < HEADER_SIZE then outcome == cut
              else if PacketLength(old(sock.pending)) > buf.Length then outcome == Overrun
              else if !WholePacket(old(sock.pending)) then outcome == cut
              else outcome == Received && Flowing(sock.script, sock.pending)
  {
    hide Patched, HostOrder, FromBe, FromLe, Reverse, Flowing;
    ghost var all, was := sock.pending, buf[..];
    outcome := SafeRecv(sock, buf, 0, HEADER_SIZE, allowClosed);
    if !outcome.Received? {
      return;
    }
    ghost var h := all[..HEADER_SIZE];
    ConvertInPlace(buf, 2, 2);
    ConvertInPlace(buf, 6, 2);
    ConvertInPlace(buf, 8, 4);
    ConvertedHeader(was, h);
    assert buf[..] == Patched(was, 0, HostOrder(h));
    BodyLengthField(was, h);
    assert h[8..12] == all[8..12];
    var bodylen := FromLe(buf[8..12]);
    if HEADER_SIZE + bodylen > buf.Length {
      return Overrun;
    }
    outcome := SafeRecv(sock, buf, HEADER_SIZE, bodylen, allowClosed);
    if outcome.Received? {
      PatchedTwice(was, 0, HostOrder(h), all[HEADER_SIZE..HEADER_SIZE + bodylen]);
      PatchedFront(was, FirstPacket(all));
      assert all[HEADER_SIZE..][..bodylen] == all[HEADER_SIZE..HEADER_SIZE + bodylen];
      assert all[HEADER_SIZE..][bodylen..] == all[HEADER_SIZE + bodylen..];
    }
  }

  lemma PatchedFront(s: seq<Byte>, x: seq<Byte>)
    requires |x| <= |s|
    ensures Patched(s, 0, x)[..|x|] == x
  {
  }

  /** The converted field, loaded in host order, is the length the peer sent. */
  lemma BodyLengthField(s: seq<Byte>, h: seq<Byte>)
    requires |h| == HEADER_SIZE <= |s|
    ensures FromLe(Patched(s, 0, HostOrder(h))[8..12]) == FromBe(h[8..12])
  {
    FromBeReverses(h[8..12]);
    hide FromLe, FromBe, Reverse;
    assert Patched(s, 0, HostOrder(h))[8..12] == Reverse(h[8..12]);
  }

  // ---------------------------------------------------------------- a stream of responses

  datatype Response = Response(opcode: Byte, keylen: nat, extlen: Byte, datatypeByte: Byte, status: nat,
                               opaq: seq<Byte>, cas: seq<Byte>, body: seq<Byte>) {
    predicate WellFormed() {
      keylen < 0x10000 && status < 0x10000 && |opaq| == 4 && |cas| == 8 && |body| < 0x1_0000_0000
    }
  }

  /** The 24 bytes of a response header, given those of its three integers. */
  function ResponseHeader(p: Response, keylen: seq<Byte>, status: seq<Byte>, bodylen: seq<Byte>): seq<Byte> {
    [RESPONSE_MAGIC, p.opcode] + keylen + [p.extlen, p.datatypeByte] + status + bodylen + p.opaq + p.cas
  }

  /** A response in network order, as the server sends it. */
  function Wire(p: Response): seq<Byte> {
    ResponseHeader(p, Be(p.keylen, 2), Be(p.status, 2), Be(|p.body|, 4)) + p.body
  }

  /** The same response with the integers a client looks at in host order. */
  function Host(p: Response): seq<Byte> {
    ResponseHeader(p, Le(p.keylen, 2), Le(p.status, 2), Le(|p.body|, 4)) + p.body
  }

  lemma HostHeader(p: Response, keylen: seq<Byte>, status: seq<Byte>, bodylen: seq<Byte>)
    requires p.WellFormed() && |keylen| == 2 && |status| == 2 && |bodylen| == 4
    ensures var h := ResponseHeader(p, keylen, status, bodylen);
            && |h| == HEADER_SIZE && h[8..12] == bodylen
            && HostOrder(h) == ResponseHeader(p, Reverse(keylen), Reverse(status), Reverse(bodylen))
  {
    hide Reverse;
    var h := ResponseHeader(p, keylen, status, bodylen);
    assert h[2..4] == keylen && h[6..8] == status && h[8..12] == bodylen;
    assert h[..2] == [RESPONSE_MAGIC, p.opcode] && h[4..6] == [p.extlen, p.datatypeByte] && h[12..] == p.opaq + p.cas;
  }

  /** Where the fields of a response stand, in network order on the wire and in host order for the client. */
  lemma ResponseFields(p: Response)
    requires p.WellFormed()
    ensures var w := Wire(p);
            && |w| == 24 + |p.body| && w[0] == 0x81 && w[1] == p.opcode && w[4] == p.extlen && w[5] == p.datatypeByte
            && FromBe(w[2..4]) == p.keylen && FromBe(w[6..8]) == p.status && FromBe(w[8..12]) == |p.body|
            && w[12..16] == p.opaq && w[16..24] == p.cas && w[24..] == p.body
    ensures var w := Host(p);
            && |w| == 24 + |p.body| && w[0] == 0x81 && w[1] == p.opcode && w[4] == p.extlen && w[5] == p.datatypeByte
            && FromLe(w[2..4]) == p.keylen && FromLe(w[6..8]) == p.status && FromLe(w[8..12]) == |p.body|
            && w[12..16] == p.opaq && w[16..24] == p.cas && w[24..] == p.body
  {
    Pow256Values();
    FromBeOfBe(p.keylen, 2);
    FromBeOfBe(p.status, 2);
    FromBeOfBe(|p.body|, 4);
    FromLeOfLe(p.keylen, 2);
    FromLeOfLe(p.status, 2);
    FromLeOfLe(|p.body|, 4);
    hide FromBe, FromLe, Le, Be;
    HeaderLayout(p, Be(p.keylen, 2), Be(p.status, 2), Be(|p.body|, 4));
    HeaderLayout(p, Le(p.keylen, 2), Le(p.status, 2), Le(|p.body|, 4));
  }

  lemma HeaderLayout(p: Response, keylen: seq<Byte>, status: seq<Byte>, bodylen: seq<Byte>)
    requires |p.opaq| == 4 && |p.cas| == 8 && |keylen| == 2 && |status| == 2 && |bodylen| == 4
    ensures var w := ResponseHeader(p, keylen, status, bodylen) + p.body;
            && |w| == 24 + |p.body| && w[0] == 0x81 && w[1] == p.opcode && w[4] == p.extlen && w[5] == p.datatypeByte
            && w[2..4] == keylen && w[6..8] == status && w[8..12] == bodylen
            && w[12..16] == p.opaq && w[16..24] == p.cas && w[24..] == p.body
  {
  }

  function WireAll(ps: seq<Response>): seq<Byte> {
    if ps == [] then [] else Wire(ps[0]) + WireAll(ps[1..])
  }

  lemma PacketOnWire(p: Response, rest: seq<Byte>)
    requires p.WellFormed()
    ensures var bs := Wire(p) + rest;
            && WholePacket(bs) && PacketLength(bs) == |Wire(p)|
            && FirstPacket(bs) == Host(p) && bs[PacketLength(bs)..] == rest
  {
    var h := ResponseHeader(p, Be(p.keylen, 2), Be(p.status, 2), Be(|p.body|, 4));
    Pow256Values();
    FromBeOfBe(|p.body|, 4);
    HostHeader(p, Be(p.keylen, 2), Be(p.status, 2), Be(|p.body|, 4));
    ReverseTwice(Le(p.keylen, 2));
    ReverseTwice(Le(p.status, 2));
    ReverseTwice(Le(|p.body|, 4));
    hide FromBe, Reverse, Le, ResponseHeader, HostOrder, FirstPacket, PacketLength, WholePacket;
    PacketInFront(h, p.body, rest);
  }

  lemma PacketInFront(h: seq<Byte>, body: seq<Byte>, rest: seq<Byte>)
    requires |h| == HEADER_SIZE && FromBe(h[8..12]) == |body|
    ensures var bs := h + body + rest;
            && WholePacket(bs) && PacketLength(bs) == HEADER_SIZE + |body|
            && FirstPacket(bs) == HostOrder(h) + body && bs[PacketLength(bs)..] == rest
  {
    hide FromBe, HostOrder;
    var bs := h + body + rest;
    assert bs[8..12] == h[8..12] && bs[..HEADER_SIZE] == h;
    assert bs[HEADER_SIZE..HEADER_SIZE + |body|] == body;
  }

  /**
   * The receiving thread: packets until the peer closes. For every fragmentation of a stream of
   * well-formed responses that fit the buffer, exactly those responses are received, in order.
   */
  method ReceiveAll(sock: Socket, buf: array<Byte>, ghost ps: seq<Response>)
    returns (got: seq<seq<Byte>>, outcome: RecvOutcome)
    requires buf.Length > HEADER_SIZE
    requires sock.pending == WireAll(ps)
    requires forall p :: p in ps ==> p.WellFormed() && |Wire(p)| <= buf.Length
    requires Flowing(sock.script, sock.pending)
    modifies sock, buf
    ensures outcome == Closed
    ensures |got| == |ps| && forall i :: 0 <= i < |ps| ==> got[i] == Host(ps[i])
  {
    hide Wire, Host, FirstPacket, Flowing;
    got := [];
    while true
      invariant |got| <= |ps| && sock.pending == WireAll(ps[|got|..])
      invariant forall i :: 0 <= i < |got| ==> got[i] == Host(ps[i])
      invariant Flowing(sock.script, sock.pending)
      decreases |sock.script|
    {
      ghost var left := ps[|got|..];
      if |got| < |ps| {
        PacketOnWire(left[0], WireAll(left[1..]));
        assert left[1..] == ps[|got| + 1..];
      }
      outcome := SafeRecvPacket(sock, buf, true);
      if !outcome.Received? {
        return;
      }
      var bodylen := FromLe(buf[8..12]);
      ReceivedLength(buf[..], left[0]);
      got := got + [buf[..HEADER_SIZE + bodylen]];
    }
  }

  lemma ReceivedLength(contents: seq<Byte>, p: Response)
    requires p.WellFormed() && |contents| >= |Wire(p)| && contents[..|Wire(p)|] == Host(p)
    ensures HEADER_SIZE + FromLe(contents[8..12]) == |Wire(p)|
  {
    Pow256Values();
    FromLeOfLe(|p.body|, 4);
    hide FromLe, Le, Be;
    assert contents[8..12] == Host(p)[8..12] == Le(|p.body|, 4);
  }
}
