/** The pipelined requests of testapp.c's hickup test: a buffer filled with random commands, then sent in pieces. */
module Pipeline {
  import opened Bits
  import opened Words
  import opened Octets
  import opened Packets
  import opened Encoders
  import opened Transport

  const COMMAND_SIZE := 65 * 1024
  const VALUE: seq<Byte> := Le(0xfeedfacedeadbeef, 8)

  const QUIT: Byte := 0x07
  const QUITQ: Byte := 0x17
  const SASL_LIST_MECHS: Byte := 0x20
  const SASL_AUTH: Byte := 0x21
  const SASL_STEP: Byte := 0x22

  /** SET, ADD, REPLACE and their quiet forms. */
  predicate Stores(cmd: Byte) {
    cmd in {0x01, 0x02, 0x03, 0x11, 0x12, 0x13}
  }

  /** APPEND, PREPEND and their quiet forms. */
  predicate Concatenates(cmd: Byte) {
    cmd in {0x0e, 0x0f, 0x19, 0x1a}
  }

  /** DELETE and GET in all their forms: a key and nothing else. */
  predicate TakesKey(cmd: Byte) {
    cmd in {0x04, 0x14, 0x00, 0x0c, 0x0d, 0x09}
  }

  /** INCREMENT, DECREMENT and their quiet forms. */
  predicate Counts(cmd: Byte) {
    cmd in {0x05, 0x06, 0x15, 0x16}
  }

  /** TOUCH and the GAT family. */
  predicate Touches(cmd: Byte) {
    cmd in {0x1c, 0x1d, 0x1e, 0x23, 0x24}
  }

  /** The opcodes that must not reach the server. */
  predicate Forbidden(cmd: Byte) {
    cmd in {QUIT, QUITQ, SASL_LIST_MECHS, SASL_AUTH, SASL_STEP}
  }

  /** `cmd |= 0xf0`. */
  function Disarmed(cmd: Byte): Byte
    requires Forbidden(cmd)
  {
    OrValues();
    Or(cmd, 0xf0)
  }

  lemma OrValues()
    ensures Or(0x07, 0xf0) == 0xf7 && Or(0x17, 0xf0) == 0xf7
    ensures Or(0x20, 0xf0) == 0xf0 && Or(0x21, 0xf0) == 0xf1 && Or(0x22, 0xf0) == 0xf2
  {
    OrOnes(0);
    OrOnes(1);
    OrOnes(2);
    hide *;
    OrLow(0x0, 0xf, 0);
    OrLow(0x0, 0x1e, 1);
    OrLow(0x1, 0x3c, 1);
    OrLow(0x3, 0x78, 1);
    OrLow(0x1, 0xf, 0);
    OrLow(0x2, 0x1e, 1);
    OrLow(0x5, 0x3c, 1);
    OrLow(0xb, 0x78, 1);
    OrLow(0x2, 0xf, 0);
    OrLow(0x4, 0x1e, 0);
    OrLow(0x8, 0x3c, 0);
    OrLow(0x8, 0x3c, 1);
    OrLow(0x10, 0x78, 0);
    OrLow(0x10, 0x78, 1);
    OrLow(0x11, 0x78, 0);
  }

  lemma OrOnes(hi: nat)
    requires hi < 4
    ensures Or(hi, 0xf) == 0xf
  {
    assert Or(0, 0x3) == 0x3;
    assert Or(hi / 2, 0x7) == 0x7;
  }

  /** Bitwise or, one bit at a time from the low end. */
  lemma OrLow(x: nat, y: nat, bit: nat)
    requires bit < 2
    ensures Or(2 * x + bit, 2 * y) == 2 * Or(x, y) + bit
  {
    hide *;
    OrStep(2 * x + bit, 2 * y);
  }

  /** The request a random opcode and key give rise to. */
  function Chosen(cmd: Byte, key: seq<Byte>): Request {
    if Stores(cmd) then Request(cmd, Le(0, 4) + Le(0, 4), key, VALUE)
    else if Concatenates(cmd) then Request(cmd, [], key, VALUE)
    else if TakesKey(cmd) then Request(cmd, [], key, [])
    else if Counts(cmd) then Request(cmd, Be(1, 8) + Be(0, 8) + Be(0, 4), key, [])
    else if Touches(cmd) then Request(cmd, Be(10, 4), key, [])
    else if Forbidden(cmd) then Request(Disarmed(cmd), [], [], [])
    else Request(cmd, [], [], [])
  }

  /** Whatever the draw, the request fits its header and its opcode is none of the forbidden ones. */
  lemma ChosenIsHarmless(cmd: Byte, key: seq<Byte>)
    requires |key| <= 250
    ensures Chosen(cmd, key).Fits() && !Forbidden(Chosen(cmd, key).opcode)
    ensures Chosen(cmd, key).BodyLength() <= 270
  {
    OrValues();
    hide Le, Be, Or;
  }

  // ---------------------------------------------------------------- the bytes of every opcode's request

  lemma ChosenCases(cmd: Byte, key: seq<Byte>)
    ensures cmd == 0x01 || cmd == 0x02 || cmd == 0x03 || cmd == 0x11 || cmd == 0x12 || cmd == 0x13 ==>
              Chosen(cmd, key) == Request(cmd, Le(0, 4) + Le(0, 4), key, VALUE)
    ensures cmd == 0x0e || cmd == 0x0f || cmd == 0x19 || cmd == 0x1a ==> Chosen(cmd, key) == Request(cmd, [], key, VALUE)
    ensures cmd == 0x04 || cmd == 0x14 || cmd == 0x00 || cmd == 0x09 || cmd == 0x0c || cmd == 0x0d ==>
              Chosen(cmd, key) == Request(cmd, [], key, [])
    ensures cmd == 0x05 || cmd == 0x06 || cmd == 0x15 || cmd == 0x16 ==>
              Chosen(cmd, key) == Request(cmd, Be(1, 8) + Be(0, 8) + Be(0, 4), key, [])
    ensures cmd == 0x1c || cmd == 0x1d || cmd == 0x1e || cmd == 0x23 || cmd == 0x24 ==>
              Chosen(cmd, key) == Request(cmd, Be(10, 4), key, [])
  {
    hide Le, Be, Or;
  }

  lemma FieldValues()
    ensures FromBe(Be(1, 8)) == 1 && FromBe(Be(0, 8)) == 0 && FromBe(Be(0, 4)) == 0 && FromBe(Be(10, 4)) == 10
    ensures |VALUE| == 8 && FromLe(VALUE) == 0xfeedfacedeadbeef
  {
    hide Le, Be, FromLe, FromBe, Pow256;
    Pow256Values();
    FromBeOfBe(1, 8);
    FromBeOfBe(0, 8);
    FromBeOfBe(0, 4);
    FromBeOfBe(10, 4);
    FromLeOfLe(0xfeedfacedeadbeef, 8);
  }

  lemma ZeroFlags()
    ensures Le(0, 4) + Le(0, 4) == [0, 0, 0, 0, 0, 0, 0, 0]
  {
    assert Le(0, 4) == [0, 0, 0, 0];
  }

  /** SET, ADD, REPLACE and their quiet forms: flags and expiration 0, the key, and the value 0xfeedfacedeadbeef in host order. */
  lemma StoringBytes(cmd: Byte, key: seq<Byte>)
    requires |key| <= 250 && (cmd == 0x01 || cmd == 0x02 || cmd == 0x03 || cmd == 0x11 || cmd == 0x12 || cmd == 0x13)
    ensures var bs := Encode(Chosen(cmd, key));
            && |bs| == 40 + |key| && bs[1] == cmd && bs[4] == 8
            && FromBe(bs[2..4]) == |key| && FromBe(bs[8..12]) == 16 + |key|
            && bs[24..32] == [0, 0, 0, 0, 0, 0, 0, 0] && bs[32..32 + |key|] == key
            && FromLe(bs[32 + |key|..]) == 0xfeedfacedeadbeef
  {
    hide *;
    FieldValues();
    ZeroFlags();
    ChosenIsHarmless(cmd, key);
    ChosenCases(cmd, key);
    Layout(Request(cmd, Le(0, 4) + Le(0, 4), key, VALUE));
  }

  /** APPEND, PREPEND and their quiet forms: no extras. */
  lemma ConcatenatingBytes(cmd: Byte, key: seq<Byte>)
    requires |key| <= 250 && (cmd == 0x0e || cmd == 0x0f || cmd == 0x19 || cmd == 0x1a)
    ensures var bs := Encode(Chosen(cmd, key));
            && |bs| == 32 + |key| && bs[1] == cmd && bs[4] == 0
            && FromBe(bs[2..4]) == |key| && FromBe(bs[8..12]) == 8 + |key|
            && bs[24..24 + |key|] == key && FromLe(bs[24 + |key|..]) == 0xfeedfacedeadbeef
  {
    hide *;
    FieldValues();
    ChosenIsHarmless(cmd, key);
    ChosenCases(cmd, key);
    Layout(Request(cmd, [], key, VALUE));
  }

  /** DELETE, DELETEQ, GET, GETQ, GETK and GETKQ: the key alone. */
  lemma KeyedBytes(cmd: Byte, key: seq<Byte>)
    requires |key| <= 250
    requires cmd == 0x04 || cmd == 0x14 || cmd == 0x00 || cmd == 0x09 || cmd == 0x0c || cmd == 0x0d
    ensures var bs := Encode(Chosen(cmd, key));
            && |bs| == 24 + |key| && bs[1] == cmd && bs[4] == 0
            && FromBe(bs[2..4]) == |key| && FromBe(bs[8..12]) == |key| && bs[24..] == key
  {
    hide *;
    ChosenIsHarmless(cmd, key);
    ChosenCases(cmd, key);
    Layout(Request(cmd, [], key, []));
  }

  /** INCREMENT, DECREMENT and their quiet forms: delta 1, initial value 0, expiration 0, all in network order. */
  lemma CountingBytes(cmd: Byte, key: seq<Byte>)
    requires |key| <= 250 && (cmd == 0x05 || cmd == 0x06 || cmd == 0x15 || cmd == 0x16)
    ensures var bs := Encode(Chosen(cmd, key));
            && |bs| == 44 + |key| && bs[1] == cmd && bs[4] == 20
            && FromBe(bs[2..4]) == |key| && FromBe(bs[8..12]) == 20 + |key|
            && FromBe(bs[24..32]) == 1 && FromBe(bs[32..40]) == 0 && FromBe(bs[40..44]) == 0 && bs[44..] == key
  {
    hide *;
    FieldValues();
    ChosenIsHarmless(cmd, key);
    ChosenCases(cmd, key);
    Layout(Request(cmd, Be(1, 8) + Be(0, 8) + Be(0, 4), key, []));
    var bs, e := Encode(Chosen(cmd, key)), Be(1, 8) + Be(0, 8) + Be(0, 4);
    assert bs[24..32] == e[..8] == Be(1, 8) && bs[32..40] == e[8..16] == Be(0, 8) && bs[40..44] == e[16..] == Be(0, 4);
  }

  /** TOUCH and the GAT family: expiration 10 in network order. */
  lemma TouchingBytes(cmd: Byte, key: seq<Byte>)
    requires |key| <= 250 && (cmd == 0x1c || cmd == 0x1d || cmd == 0x1e || cmd == 0x23 || cmd == 0x24)
    ensures var bs := Encode(Chosen(cmd, key));
            && |bs| == 28 + |key| && bs[1] == cmd && bs[4] == 4
            && FromBe(bs[2..4]) == |key| && FromBe(bs[8..12]) == 4 + |key|
            && FromBe(bs[24..28]) == 10 && bs[28..] == key
  {
    hide *;
    FieldValues();
    ChosenIsHarmless(cmd, key);
    ChosenCases(cmd, key);
    Layout(Request(cmd, Be(10, 4), key, []));
  }

  /** All other opcodes: a bare header, in which QUIT, QUITQ and the SASL opcodes are replaced. */
  lemma BareBytes(cmd: Byte, key: seq<Byte>)
    requires |key| <= 250 && cmd !in {0x01, 0x02, 0x03, 0x11, 0x12, 0x13, 0x0e, 0x0f, 0x19, 0x1a, 0x04, 0x14, 0x00, 0x09, 0x0c,
                                      0x0d, 0x05, 0x06, 0x15, 0x16, 0x1c, 0x1d, 0x1e, 0x23, 0x24}
    ensures var bs := Encode(Chosen(cmd, key));
            && |bs| == 24 && bs[4] == 0 && FromBe(bs[2..4]) == 0 && FromBe(bs[8..12]) == 0
            && bs[1] == if cmd == 0x07 || cmd == 0x17 then 0xf7
                        else if cmd == 0x20 then 0xf0
                        else if cmd == 0x21 then 0xf1
                        else if cmd == 0x22 then 0xf2
                        else cmd
  {
    OrValues();
    ChosenIsHarmless(cmd, key);
    hide Le, Be, FromLe, FromBe, Encode, Or;
    Layout(Chosen(cmd, key));
  }

  /** The switch: which encoder is called with what. */
  method BuildCommand(cmd: Byte, key: seq<Byte>) returns (command: array<Byte>, len: nat)
    requires |key| <= 250
    ensures fresh(command) && len <= command.Length
    ensures command[..len] == Encode(Chosen(cmd, key))
  {
    hide Le, Be, Encode;
    command := new Byte[COMMAND_SIZE];
    if Stores(cmd) {
      len := StorageCommand(command, cmd, key, Present(VALUE), 0, 0);
    } else if Concatenates(cmd) {
      len := RawCommand(command, cmd, Present(key), Present(VALUE));
    } else if TakesKey(cmd) {
      len := RawCommand(command, cmd, Present(key), Missing(0));
    } else if Counts(cmd) {
      len := ArithmeticCommand(command, cmd, key, 1, 0, 0);
    } else if Touches(cmd) {
      var overrun;
      len, overrun := TouchCommand(command, cmd, key, 10);
    } else {
      var opcode := if Forbidden(cmd) then Disarmed(cmd) else cmd;
      len := RawCommand(command, opcode, Missing(0), Missing(0));
    }
  }

  /** The request of the `i`-th pass. */
  function Drawn(opcodes: nat -> Byte, lengths: nat -> nat, key: seq<Byte>, i: nat): Request
    requires |key| >= 250
  {
    Chosen(opcodes(i), key[..lengths(i) % 250 + 1])
  }

  /** The key of a drawn request is the front of the given key, of a length from 1 to 250 that the random number decides. */
  lemma DrawnKey(opcodes: nat -> Byte, lengths: nat -> nat, key: seq<Byte>, i: nat)
    requires |key| >= 250 && opcodes(i) == 0x00
    ensures var k := Drawn(opcodes, lengths, key, i).key;
            k <= key && 1 <= |k| <= 250 && (|k| - 1 - lengths(i)) % 250 == 0
  {
    hide Le, Be, Or;
    var n := lengths(i);
    assert n == 250 * (n / 250) + n % 250;
    assert Drawn(opcodes, lengths, key, i).key == key[..n % 250 + 1];
  }

  /**
   * What a buffer of `size` bytes must receive: the requests of the first passes, in order, as long as the thread runs,
   * a header has room and the next request fits; no fewer and no more.
   */
  ghost predicate IsChunk(rs: seq<Request>, size: nat, key: seq<Byte>, running: nat -> bool, opcodes: nat -> Byte, lengths: nat -> nat)
    requires |key| >= 250
  {
    && (forall j :: 0 <= j < |rs| ==> running(j) && rs[j] == Drawn(opcodes, lengths, key, j))
    && (rs != [] ==> |Stream(rs)| < size)
    && (|| !running(|rs|)
        || |Stream(rs)| + HEADER_SIZE >= size
        || |Stream(rs)| + |Encode(Drawn(opcodes, lengths, key, |rs|))| >= size)
  }

  lemma {:induction false} StreamPrefix(rs: seq<Request>, n: nat)
    requires n <= |rs|
    ensures |Stream(rs[..n])| <= |Stream(rs)|
  {
    if n == |rs| {
      assert rs[..n] == rs;
    } else {
      var front := rs[..|rs| - 1];
      assert rs == front + [rs[|rs| - 1]] && front[..n] == rs[..n];
      StreamAppend(front, rs[|rs| - 1]);
      StreamPrefix(front, n);
    }
  }

  lemma ChunkNoLonger(rs: seq<Request>, rs': seq<Request>, size: nat, key: seq<Byte>, running: nat -> bool,
                      opcodes: nat -> Byte, lengths: nat -> nat)
    requires |key| >= 250
    requires IsChunk(rs, size, key, running, opcodes, lengths) && IsChunk(rs', size, key, running, opcodes, lengths)
    ensures |rs'| <= |rs|
  {
    hide Stream, Encode, Drawn;
    var n := |rs|;
    if |rs'| > n {
      var r := rs'[n];
      assert rs'[..n] == rs;
      assert rs'[..n + 1] == rs + [r];
      StreamAppend(rs, r);
      StreamPrefix(rs', n + 1);
      EncodedLength(r);
      assert false;
    }
  }

  /** The random numbers, the flag and the buffer size determine the chunk. */
  lemma ChunkDetermined(rs: seq<Request>, rs': seq<Request>, size: nat, key: seq<Byte>, running: nat -> bool,
                        opcodes: nat -> Byte, lengths: nat -> nat)
    requires |key| >= 250
    requires IsChunk(rs, size, key, running, opcodes, lengths) && IsChunk(rs', size, key, running, opcodes, lengths)
    ensures rs == rs'
  {
    hide Stream, Encode, Drawn;
    ChunkNoLonger(rs, rs', size, key, running, opcodes, lengths);
    ChunkNoLonger(rs', rs, size, key, running, opcodes, lengths);
  }

  /**
   * The loop of `test_binary_pipeline_hickup_chunk`. For every sequence of random numbers it terminates inside
   * the buffer and leaves whole packets only, exactly those of the chunk.
   */
  method BuildChunk(buffer: array<Byte>, key: seq<Byte>, running: nat -> bool, opcodes: nat -> Byte, lengths: nat -> nat)
    returns (offset: nat, ghost rs: seq<Request>)
    requires |key| >= 250
    modifies buffer
    ensures offset <= buffer.Length
    ensures buffer[..offset] == Stream(rs) && buffer[offset..] == old(buffer[offset..])
    ensures IsChunk(rs, buffer.Length, key, running, opcodes, lengths)
  {
    hide Encode, Chosen, Stream;
    offset, rs := 0, [];
    assert buffer[..0] == Stream([]) by { EmptyStream(); }
    var i := 0;
    while running(i) && offset + HEADER_SIZE < buffer.Length
      invariant i == |rs| && offset <= buffer.Length && (rs != [] ==> offset < buffer.Length)
      invariant buffer[..offset] == Stream(rs) && buffer[offset..] == old(buffer[offset..])
      invariant forall j :: 0 <= j < |rs| ==> running(j) && rs[j] == Drawn(opcodes, lengths, key, j)
      decreases buffer.Length - offset
    {
      var keylen := lengths(i) % 250 + 1;
      var command, len := BuildCommand(opcodes(i), key[..keylen]);
      ghost var r := Drawn(opcodes, lengths, key, i);
      assert |Encode(r)| == len;
      EncodedLength(r);
      if len + offset < buffer.Length {
        ghost var before := buffer[..];
        Put(buffer, offset, command[..len]);
        PutAfter(before, Stream(rs), Encode(r));
        assert before[offset..][len..] == before[offset + len..];
        assert old(buffer[..])[offset..][len..] == old(buffer[..])[offset + len..];
        StreamAppend(rs, r);
        offset := offset + len;
        rs := rs + [r];
      } else {
        break;
      }
      i := i + 1;
    }
    assert |Stream(rs)| == offset;
  }

  lemma EmptyStream()
    ensures Stream([]) == []
  {
  }

  lemma EncodedLength(r: Request)
    ensures |Encode(r)| >= HEADER_SIZE
  {
  }

  lemma PutAfter(s: seq<Byte>, front: seq<Byte>, bs: seq<Byte>)
    requires |front| + |bs| <= |s| && s[..|front|] == front
    ensures Patched(s, |front|, bs)[..|front| + |bs|] == front + bs
    ensures Patched(s, |front|, bs)[|front| + |bs|..] == s[|front| + |bs|..]
  {
  }

  /**
   * Build and send: what arrives, once everything is sent, parses into exactly the requests of the chunk, all harmless;
   * and everything is sent if no write fails and enough of them make progress.
   */
  method PipelineChunk(buffer: array<Byte>, key: seq<Byte>, running: nat -> bool, opcodes: nat -> Byte,
                       lengths: nat -> nat, random: nat -> nat, script: seq<WriteEvent>)
    returns (wire: seq<Byte>, outcome: SendOutcome, ghost rs: seq<Request>)
    requires |key| >= 250
    modifies buffer
    ensures IsChunk(rs, buffer.Length, key, running, opcodes, lengths)
    ensures forall r :: r in rs ==> r.Fits() && !Forbidden(r.opcode)
    ensures wire <= Stream(rs)
    ensures outcome.Sent? ==> wire == Stream(rs) && Walk(wire) == Some(rs)
    ensures outcome.SendAborted? ==> WriteFails in script
    ensures WriteFails !in script && Progressing(script) >= |Stream(rs)| && script != [] ==> outcome.Sent?
  {
    hide Walk, Stream, Chosen;
    var offset;
    offset, rs := BuildChunk(buffer, key, running, opcodes, lengths);
    forall j | 0 <= j < |rs|
      ensures rs[j].Fits() && !Forbidden(rs[j].opcode)
    {
      ChosenIsHarmless(opcodes(j), key[..lengths(j) % 250 + 1]);
    }
    WalkRecovers(rs);
    ghost var asked;
    wire, outcome, asked := SafeSend(buffer[..offset], true, random, script);
  }
}
