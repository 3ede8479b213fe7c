/** Packet framing: `[AA 55] [length u16] [payload] [55 AA]`, and the readers. */
module PacketIo {
  import opened Bytes
  import opened Crc
  import J = JvCryption
  import opened Wrappers

  datatype Packet = Packet(opcode: byte, data: seq<byte>, plaintext: bool)

  datatype Result<+T> = Ok(value: T) | Err(error: ReadError)

  datatype ReadError =
    | UnexpectedEof
    | InvalidHeader
    | InvalidLength(n: nat)
    | InvalidFooter
    | ChecksumFailed
    | PayloadTooShort
    | SequenceMismatch(expected: nat, got: nat)
    | DecryptionFailed
    | EmptyPlaintext

  const HEADER: seq<byte> := [0xAA, 0x55]
  const FOOTER: seq<byte> := [0x55, 0xAA]
  const AES_FLAG: byte := 0x01
  const U16_MAX: nat := 65535
  const MAX_PACKET_SIZE: nat := 65536
  const U32_SPAN: nat := 0x1_0000_0000

  /** A packet as `Packet::with_data` makes it: readers never set the plaintext flag. */
  function Received(p: Packet): Packet { p.(plaintext := false) }

  // --------------------------------------------------------------------- frames

  /** What a length field can announce. */
  type Payload = s: seq<byte> | |s| <= U16_MAX

  /** A whole frame. */
  function Frame(payload: Payload): seq<byte> { HEADER + LeBytes(|payload|, 2) + payload + FOOTER }

  /** The payload of the frame at the front of the stream, and the rest: each part is
    * read and checked in turn. */
  function ReadFrame(s: seq<byte>, minimum: nat): (r: Result<(seq<byte>, seq<byte>)>)
    ensures r.Ok? ==> minimum <= |r.value.0| <= U16_MAX && |r.value.1| + |r.value.0| + 6 == |s|
  {
    if |s| < 2 then Err(UnexpectedEof)
    else if s[..2] != HEADER then Err(InvalidHeader)
    else if |s| < 4 then Err(UnexpectedEof)
    else
      var n := Le2(s[2..4]);
      if n < minimum || n > MAX_PACKET_SIZE then Err(InvalidLength(n))
      else if |s| < 4 + n then Err(UnexpectedEof)
      else if |s| < 4 + n + 2 then Err(UnexpectedEof)
      else if s[4 + n..4 + n + 2] != FOOTER then Err(InvalidFooter)
      else Ok((s[4..4 + n], s[4 + n + 2..]))
  }

  /** The cursor reads of the three readers. */
  method ReadFrameAt(stream: seq<byte>, start: nat, minimum: nat) returns (r: Result<(seq<byte>, nat)>)
    requires start <= |stream|
    ensures match r
      case Err(e) => ReadFrame(stream[start..], minimum) == Err(e)
      case Ok((payload, pos)) => pos <= |stream| && ReadFrame(stream[start..], minimum) == Ok((payload, stream[pos..]))
  {
    ghost var s := stream[start..];
    var pos := start;
    if pos + 2 > |stream| {
      return Err(UnexpectedEof);
    }
    assert stream[pos..pos + 2] == s[..2];
    if stream[pos..pos + 2] != HEADER {
      return Err(InvalidHeader);
    }
    pos := pos + 2;
    if pos + 2 > |stream| {
      return Err(UnexpectedEof);
    }
    assert stream[pos..pos + 2] == s[2..4];
    var payloadLen := Le2(stream[pos..pos + 2]);
    pos := pos + 2;
    if payloadLen < minimum || payloadLen > MAX_PACKET_SIZE {
      return Err(InvalidLength(payloadLen));
    }
    if pos + payloadLen > |stream| {
      return Err(UnexpectedEof);
    }
    var payload := stream[pos..pos + payloadLen];
    assert payload == s[4..4 + payloadLen];
    pos := pos + payloadLen;
    if pos + 2 > |stream| {
      return Err(UnexpectedEof);
    }
    assert stream[pos..pos + 2] == s[4 + payloadLen..4 + payloadLen + 2];
    if stream[pos..pos + 2] != FOOTER {
      return Err(InvalidFooter);
    }
    pos := pos + 2;
    assert stream[pos..] == s[4 + payloadLen + 2..];
    return Ok((payload, pos));
  }

  /** The bytes of a frame: marks around the payload, and its length, low byte first. */
  lemma FrameBytes(payload: Payload)
    ensures var f, n := Frame(payload), |payload|;
      && |f| == n + 6
      && f[0] == 0xAA && f[1] == 0x55 && f[n + 4] == 0x55 && f[n + 5] == 0xAA
      && f[2] as int + 256 * (f[3] as int) == n
      && f[4..n + 4] == payload
  {
    hide LeBytes;
    TwoBytes(|payload|);
  }

  /** A frame in front of anything reads back as its payload. */
  lemma FrameRoundTrip(payload: Payload, rest: seq<byte>, minimum: nat)
    ensures ReadFrame(Frame(payload) + rest, minimum)
      == if |payload| >= minimum then Ok((payload, rest)) else Err(InvalidLength(|payload|))
  {
    hide LeBytes, Le2;
    var len := LeBytes(|payload|, 2);
    FixedWidthRoundTrips(|payload|);
    var s := Frame(payload) + rest;
    assert s[..2] == HEADER && s[2..4] == len;
    var n := |payload|;
    assert s[4..4 + n] == payload && s[4 + n..4 + n + 2] == FOOTER && s[4 + n + 2..] == rest;
  }

  // ---------------------------------------------------- client packets, JvCryption

  /** The plaintext a client protects: sequence number, opcode, data. */
  function ClientPlain(sequence: nat, p: Packet): seq<byte>
  {
    LeBytes(sequence, 4) + [p.opcode] + p.data
  }

  /** What the reader makes of a payload when encryption is on: the packet and the new
    * counter.  The counter has already moved when the number is compared. */
  function OpenClient(tkey: bv64, payload: seq<byte>, sequence: nat): Result<(Packet, nat)>
  {
    if !J.Accepted(tkey, payload) then Err(ChecksumFailed)
    else
      var plain := J.Transformed(tkey, payload)[..|payload| - 4];
      if |plain| < 5 then Err(PayloadTooShort)
      else
        var got, expected := Le4(plain[..4]), (sequence + 1) % U32_SPAN;
        if got != expected then Err(SequenceMismatch(expected, got))
        else Ok((Packet(plain[4], plain[5..], false), expected))
  }

  /** What the reader makes of a payload when encryption is off. */
  function OpenPlain(payload: seq<byte>): Packet
    requires |payload| >= 1
  {
    Packet(payload[0], payload[1..], false)
  }

  /** `read_packet_from`: the packet, the new counter and the rest of the stream. */
  function ReadClient(tkey: bv64, enabled: bool, sequence: nat, s: seq<byte>): (r: Result<(Packet, nat, seq<byte>)>)
    ensures r.Ok? ==> |r.value.2| < |s| && r.value.1 == if enabled then (sequence + 1) % U32_SPAN else sequence
  {
    match ReadFrame(s, 1)
    case Err(e) => Err(e)
    case Ok((payload, rest)) =>
      if enabled then
        match OpenClient(tkey, payload, sequence)
        case Err(e) => Err(e)
        case Ok((p, next)) => Ok((p, next, rest))
      else Ok((OpenPlain(payload), sequence, rest))
  }

  /** The receiving end of one connection. */
  class Connection {
    const crypto: J.JvCryption
    var sequence: nat
    var stream: seq<byte>
    var pos: nat

    ghost predicate Valid()
      reads this, crypto
    {
      pos <= |stream| && IsTable(crypto.table)
    }

    /** What has not been read yet. */
    ghost function Remaining(): seq<byte>
      reads this
      requires pos <= |stream|
    {
      stream[pos..]
    }

    constructor (crypto: J.JvCryption, stream: seq<byte>)
      requires IsTable(crypto.table)
      ensures Valid() && this.crypto == crypto && sequence == 0 && Remaining() == stream
    {
      this.crypto, this.stream := crypto, stream;
      sequence, pos := 0, 0;
    }

    /** `read_packet_from`. */
    method ReadPacket() returns (r: Result<Packet>)
      requires Valid()
      modifies this`sequence, this`pos
      ensures Valid()
      ensures match ReadClient(crypto.tkey, crypto.enabled, old(sequence), old(Remaining()))
        case Err(e) => r == Err(e)
        case Ok((p, next, rest)) => r == Ok(p) && sequence == next && Remaining() == rest
    {
      hide OpenClient, ReadFrame, IsTable;
      var frame := ReadFrameAt(stream, pos, 1);
      if frame.Err? {
        return Err(frame.error);
      }
      var payload := frame.value.0;
      pos := frame.value.1;
      if !crypto.enabled {
        return Ok(Packet(payload[0], payload[1..], false));
      }
      r := OpenPayload(payload);
    }

    /** The encrypted part of `read_packet_from`: decrypt, check, count, compare. */
    method OpenPayload(payload: seq<byte>) returns (r: Result<Packet>)
      requires IsTable(crypto.table)
      modifies this`sequence
      ensures match OpenClient(crypto.tkey, payload, old(sequence))
        case Err(e) => r == Err(e)
        case Ok((p, next)) => r == Ok(p) && sequence == next
    {
      hide J.Accepted, J.Transformed, Le4, IsTable;
      var buffer := new byte[|payload|](i requires 0 <= i < |payload| => payload[i]);
      assert buffer[..] == payload;
      var decryptedLen := crypto.DecryptWithCrc32(buffer);
      if decryptedLen.None? {
        return Err(ChecksumFailed);
      }
      var n := decryptedLen.value;
      if n < 5 {
        return Err(PayloadTooShort);
      }
      ghost var plain := buffer[..][..n];
      assert buffer[..4] == plain[..4] && buffer[5..n] == plain[5..];
      var got := Le4(buffer[..4]);
      sequence := (sequence + 1) % U32_SPAN;
      if got != sequence {
        return Err(SequenceMismatch(sequence, got));
      }
      return Ok(Packet(buffer[4], buffer[5..n], false));
    }
  }

  /** A packet that fits a frame with its number and checksum. */
  type ClientPacket = p: Packet | |p.data| + 9 <= U16_MAX witness Packet(0, [], false)

  /** The frame a client sends. */
  function ClientFrame(tkey: bv64, sequence: nat, p: ClientPacket): seq<byte>
  {
    Frame(J.Protected(tkey, ClientPlain(sequence, p)))
  }

  /** A client frame with the next number is read back exactly. */
  lemma ClientFrameRead(tkey: bv64, sequence: nat, p: ClientPacket, rest: seq<byte>)
    ensures var next := (sequence + 1) % U32_SPAN;
      ReadClient(tkey, true, sequence, ClientFrame(tkey, next, p) + rest) == Ok((Received(p), next, rest))
  {
    hide J.Accepted, J.Protected, J.Transformed, Frame, ReadFrame, LeBytes, Le4;
    var next := (sequence + 1) % U32_SPAN;
    var plain := ClientPlain(next, p);
    var payload := J.Protected(tkey, plain);
    FrameRoundTrip(payload, rest, 1);
    J.ProtectedAccepted(tkey, plain);
    FixedWidthRoundTrips(next);
    assert plain[..4] == LeBytes(next, 4) && plain[4] == p.opcode && plain[5..] == p.data;
  }

  // ------------------------------------------------------- runs of encrypted reads

  /** What one read accepted: the number, the packet and the frame's payload. */
  datatype Accepted = Accepted(number: nat, packet: Packet, payload: seq<byte>)

  /** The session loop: read until the first error. */
  function ReadRun(tkey: bv64, sequence: nat, s: seq<byte>): seq<Accepted>
    decreases |s|
  {
    match ReadClient(tkey, true, sequence, s)
    case Err(_) => []
    case Ok((p, next, rest)) =>
      [Accepted(next, p, ReadFrame(s, 1).value.0)] + ReadRun(tkey, next, rest)
  }

  /** Whatever arrives, the accepted packets are numbered consecutively from the
    * counter, and each number is the one inside the accepted payload. */
  lemma {:induction false} RunNumbers(tkey: bv64, sequence: nat, s: seq<byte>)
    requires sequence < U32_SPAN
    ensures forall i :: 0 <= i < |ReadRun(tkey, sequence, s)| ==>
      var a := ReadRun(tkey, sequence, s)[i];
      && a.number == (sequence + 1 + i) % U32_SPAN
      && OpenClient(tkey, a.payload, (sequence + i) % U32_SPAN) == Ok((a.packet, a.number))
    decreases |s|
  {
    hide J.Accepted, J.Transformed, Le4, ReadFrame, OpenClient;
    var r := ReadClient(tkey, true, sequence, s);
    if r.Ok? {
      var (p, next, rest) := r.value;
      RunNumbers(tkey, next, rest);
      var run, later := ReadRun(tkey, sequence, s), ReadRun(tkey, next, rest);
      assert run == [Accepted(next, p, ReadFrame(s, 1).value.0)] + later;
      forall i | 0 <= i < |run|
        ensures run[i].number == (sequence + 1 + i) % U32_SPAN
        ensures OpenClient(tkey, run[i].payload, (sequence + i) % U32_SPAN) == Ok((run[i].packet, run[i].number))
      {
        if i > 0 {
          assert run[i] == later[i - 1];
          CounterStep(sequence, i - 1);
        }
      }
    }
  }

  lemma CounterStep(sequence: nat, i: nat)
    requires sequence < U32_SPAN
    ensures ((sequence + 1) % U32_SPAN + i) % U32_SPAN == (sequence + (i + 1)) % U32_SPAN
    ensures ((sequence + 1) % U32_SPAN + 1 + i) % U32_SPAN == (sequence + 1 + (i + 1)) % U32_SPAN
  {
    if sequence + 1 == U32_SPAN {
      assert (sequence + 1 + i) % U32_SPAN == i % U32_SPAN;
    }
  }

  /** In a run of fewer than 2^32 packets no frame is accepted twice: replays are rejected. */
  lemma NoReplay(tkey: bv64, sequence: nat, s: seq<byte>, i: nat, j: nat)
    requires sequence < U32_SPAN && i < j < |ReadRun(tkey, sequence, s)| < U32_SPAN
    ensures var run := ReadRun(tkey, sequence, s);
      run[i].number != run[j].number && run[i].payload != run[j].payload
  {
    hide J.Accepted, J.Transformed, Le4, ReadFrame, ReadRun;
    RunNumbers(tkey, sequence, s);
    var run := ReadRun(tkey, sequence, s);
    assert run[i].number != run[j].number by {
      DistinctResidues(sequence + 1 + i, sequence + 1 + j);
    }
    NumberInPayload(tkey, run[i].payload, (sequence + i) % U32_SPAN);
    NumberInPayload(tkey, run[j].payload, (sequence + j) % U32_SPAN);
  }

  lemma DistinctResidues(a: nat, b: nat)
    requires a < b < a + U32_SPAN
    ensures a % U32_SPAN != b % U32_SPAN
  {
  }

  /** The number an accepted payload carries. */
  function Number(tkey: bv64, payload: seq<byte>): nat
    requires |payload| >= 9
  {
    Le4(J.Transformed(tkey, payload)[..|payload| - 4][..4])
  }

  lemma NumberInPayload(tkey: bv64, payload: seq<byte>, sequence: nat)
    requires OpenClient(tkey, payload, sequence).Ok?
    ensures |payload| >= 9 && Number(tkey, payload) == OpenClient(tkey, payload, sequence).value.1
  {
    hide J.Transformed, Le4;
  }

  /** The frames of a list of packets, numbered from the counter on. */
  function ClientStream(tkey: bv64, sequence: nat, ps: seq<ClientPacket>): seq<byte>
    decreases |ps|
  {
    if ps == [] then [] else
      var next := (sequence + 1) % U32_SPAN;
      ClientFrame(tkey, next, ps[0]) + ClientStream(tkey, next, ps[1..])
  }

  /** Everything an honest client sends is accepted, in order. */
  lemma {:induction false} HonestRun(tkey: bv64, sequence: nat, ps: seq<ClientPacket>)
    ensures var run := ReadRun(tkey, sequence, ClientStream(tkey, sequence, ps));
      |run| == |ps| && forall i :: 0 <= i < |ps| ==> run[i].packet == Received(ps[i])
    decreases |ps|
  {
    hide J.Accepted, J.Transformed, J.Protected, Le4, ClientFrame, ReadFrame, OpenClient;
    if ps == [] {
      EmptyStream(tkey, sequence);
    } else {
      var next := (sequence + 1) % U32_SPAN;
      var rest := ClientStream(tkey, next, ps[1..]);
      ClientFrameRead(tkey, sequence, ps[0], rest);
      HonestRun(tkey, next, ps[1..]);
    }
  }

  lemma EmptyStream(tkey: bv64, sequence: nat)
    ensures ReadRun(tkey, sequence, []) == []
  {
  }

  /** Exactly when a client frame is refused after the key exchange: for its checksum, for want of
    * number and opcode, or for its number. */
  lemma ClientRefusedExactly(tkey: bv64, sequence: nat, payload: Payload, rest: seq<byte>)
    requires |payload| >= 1
    ensures var r := ReadClient(tkey, true, sequence, Frame(payload) + rest);
      var plain := J.Transformed(tkey, payload);
      && (r == Err(ChecksumFailed) <==> !J.Accepted(tkey, payload))
      && (r == Err(PayloadTooShort) <==> J.Accepted(tkey, payload) && |payload| < 9)
      && (r.Ok? <==> J.Accepted(tkey, payload) && |payload| >= 9 && Le4(plain[..4]) == (sequence + 1) % 0x1_0000_0000)
      && (J.Accepted(tkey, payload) && |payload| >= 9 && r.Err? ==>
            r == Err(SequenceMismatch((sequence + 1) % 0x1_0000_0000, Le4(plain[..4]))))
  {
    hide Frame, ReadFrame, J.Transformed, J.Accepted, Le4;
    FrameRoundTrip(payload, rest, 1);
    var n := |payload|;
    if n >= 9 {
      assert J.Transformed(tkey, payload)[..n - 4][..4] == J.Transformed(tkey, payload)[..4];
    }
    AcceptedLength(tkey, payload);
  }

  lemma AcceptedLength(tkey: bv64, payload: seq<byte>)
    ensures J.Accepted(tkey, payload) ==> |payload| >= 4
  {
    hide J.ChecksumHolds;
  }

  /** A frame damaged within four consecutive bytes of its payload is always refused. */
  lemma DamagedFrameRefused(tkey: bv64, sequence: nat, plain: seq<byte>, h: Payload, k: nat, rest: seq<byte>)
    requires var g := J.Protected(tkey, plain);
      |h| == |g| && h != g && k + 4 <= |g| && g[..k] == h[..k] && g[k + 4..] == h[k + 4..]
    ensures ReadClient(tkey, true, sequence, Frame(h) + rest) == Err(ChecksumFailed)
  {
    hide Frame, J.Transformed, J.Accepted, J.Protected;
    J.FourBytesRejected(tkey, plain, h, k);
    ClientRefusedExactly(tkey, sequence, h, rest);
  }

  // ------------------------------------------------------------- the AES readers

  /** The AES library: only its contract matters. */
  datatype Aes = Aes(encrypt: seq<byte> -> seq<byte>, decrypt: seq<byte> -> Option<seq<byte>>) {
    /** Decryption undoes encryption; PKCS #7 padding fills whole blocks and always adds a byte. */
    ghost predicate Sound() {
      && (forall p: seq<byte> :: decrypt(encrypt(p)) == Some(p))
      && (forall p: seq<byte> :: |encrypt(p)| == 16 * (|p| / 16 + 1))
      && (forall c: seq<byte> :: decrypt(c).Some? ==> |decrypt(c).value| < |c|)
    }
  }

  /** What `read_packet_aes_inner` makes of a payload of at least two bytes. */
  function OpenAes(aes: Aes, stripSeq: bool, payload: seq<byte>): Result<Packet>
    requires |payload| >= 2
  {
    if payload[0] != AES_FLAG then Ok(Packet(payload[0], payload[1..], false))
    else
      match aes.decrypt(payload[1..])
      case None => Err(DecryptionFailed)
      case Some(plain) =>
        if plain == [] then Err(EmptyPlaintext)
        else if !stripSeq then Ok(Packet(plain[0], plain[1..], false))
        else if |plain| < 2 then Err(PayloadTooShort)
        else Ok(Packet(plain[1], plain[2..], false))
  }

  function ReadAes(aes: Aes, stripSeq: bool, s: seq<byte>): (r: Result<(Packet, seq<byte>)>)
    ensures r.Ok? ==> |r.value.1| < |s|
  {
    match ReadFrame(s, 2)
    case Err(e) => Err(e)
    case Ok((payload, rest)) =>
      match OpenAes(aes, stripSeq, payload)
      case Err(e) => Err(e)
      case Ok(p) => Ok((p, rest))
  }

  /** `read_packet_aes_inner`. */
  method ReadPacketAes(aes: Aes, stripSeq: bool, stream: seq<byte>, start: nat) returns (r: Result<(Packet, nat)>)
    requires start <= |stream|
    ensures match r
      case Err(e) => ReadAes(aes, stripSeq, stream[start..]) == Err(e)
      case Ok((p, pos)) => pos <= |stream| && ReadAes(aes, stripSeq, stream[start..]) == Ok((p, stream[pos..]))
  {
    hide ReadFrame;
    var frame := ReadFrameAt(stream, start, 2);
    if frame.Err? {
      return Err(frame.error);
    }
    var (payload, pos) := frame.value;
    var packet := OpenAes(aes, stripSeq, payload);
    if packet.Err? {
      return Err(packet.error);
    }
    return Ok((packet.value, pos));
  }

  /** Repeated reads until the first error, and where they stop. */
  function ReadAllAes(aes: Aes, stripSeq: bool, s: seq<byte>): (seq<Packet>, seq<byte>)
    decreases |s|
  {
    match ReadAes(aes, stripSeq, s)
    case Err(_) => ([], s)
    case Ok((p, rest)) =>
      var (later, stop) := ReadAllAes(aes, stripSeq, rest);
      ([p] + later, stop)
  }

  /** What a client sends to the game server: any sequence byte, the opcode and the data, encrypted. */
  function SequencedPayload(aes: Aes, q: byte, p: Packet): seq<byte>
  {
    [0x01] + aes.encrypt([q, p.opcode] + p.data)
  }

  /** The game server reads the packet of such a frame, whatever the sequence byte. */
  lemma SequencedFrameRead(aes: Aes, q: byte, p: Packet, rest: seq<byte>)
    requires aes.Sound() && |SequencedPayload(aes, q, p)| <= U16_MAX
    ensures ReadAes(aes, true, Frame(SequencedPayload(aes, q, p)) + rest) == Ok((Received(p), rest))
  {
    hide Frame, ReadFrame;
    var payload := SequencedPayload(aes, q, p);
    FrameRoundTrip(payload, rest, 2);
    assert payload[1..] == aes.encrypt([q, p.opcode] + p.data);
    assert ([q, p.opcode] + p.data)[2..] == p.data;
  }

  /** What a client sends with the sequence bytes `qs`. */
  function SequencedStream(aes: Aes, qs: seq<byte>, ps: seq<Packet>): seq<byte>
    requires |qs| == |ps| && forall i :: 0 <= i < |ps| ==> |SequencedPayload(aes, qs[i], ps[i])| <= U16_MAX
  {
    if ps == [] then []
    else Frame(SequencedPayload(aes, qs[0], ps[0])) + SequencedStream(aes, qs[1..], ps[1..])
  }

  /** A whole run of such frames is read: every packet, in order, and nothing is left. */
  lemma {:induction false} SequencedRun(aes: Aes, qs: seq<byte>, ps: seq<Packet>)
    requires aes.Sound()
    requires |qs| == |ps| && forall i :: 0 <= i < |ps| ==> |SequencedPayload(aes, qs[i], ps[i])| <= U16_MAX
    ensures var (read, left) := ReadAllAes(aes, true, SequencedStream(aes, qs, ps));
      left == [] && |read| == |ps| && forall i :: 0 <= i < |ps| ==> read[i] == Received(ps[i])
  {
    assert ReadAllAes(aes, true, []) == ([], []);
    hide Frame, ReadAes, SequencedPayload;
    if ps != [] {
      SequencedFrameRead(aes, qs[0], ps[0], SequencedStream(aes, qs[1..], ps[1..]));
      SequencedRun(aes, qs[1..], ps[1..]);
    }
  }

  /** Exactly when a whole frame is refused: its ciphertext does not decrypt, or decrypts to
    * nothing, or, where a sequence byte is expected, to a single byte. */
  lemma AesRefusedExactly(aes: Aes, stripSeq: bool, payload: Payload, rest: seq<byte>)
    requires |payload| >= 2
    ensures var r, plain := ReadAes(aes, stripSeq, Frame(payload) + rest), aes.decrypt(payload[1..]);
      && (r == Err(DecryptionFailed) <==> payload[0] == 0x01 && plain == None)
      && (r == Err(EmptyPlaintext) <==> payload[0] == 0x01 && plain == Some([]))
      && (r == Err(PayloadTooShort) <==> payload[0] == 0x01 && stripSeq && plain.Some? && |plain.value| == 1)
      && (r.Ok? <==> payload[0] != 0x01 || (plain.Some? && |plain.value| >= if stripSeq then 2 else 1))
  {
    hide Frame, ReadFrame;
    FrameRoundTrip(payload, rest, 2);
  }

  /** Without the flag the payload is taken as it is, with or without a sequence byte. */
  lemma UnencryptedFrameRead(aes: Aes, stripSeq: bool, op: byte, data: seq<byte>, rest: seq<byte>)
    requires op != 0x01 && 1 <= |data| < U16_MAX
    ensures ReadAes(aes, stripSeq, Frame([op] + data) + rest) == Ok((Packet(op, data, false), rest))
  {
    hide Frame, ReadFrame;
    FrameRoundTrip([op] + data, rest, 2);
    assert ([op] + data)[1..] == data;
  }

  /** Before the key exchange a frame is read as opcode and data, and no number is counted. */
  lemma PlainFrameRead(tkey: bv64, sequence: nat, op: byte, data: seq<byte>, rest: seq<byte>)
    requires |data| < U16_MAX
    ensures ReadClient(tkey, false, sequence, Frame([op] + data) + rest)
      == Ok((Packet(op, data, false), sequence, rest))
  {
    hide Frame, ReadFrame;
    FrameRoundTrip([op] + data, rest, 1);
    assert ([op] + data)[1..] == data;
  }
}
