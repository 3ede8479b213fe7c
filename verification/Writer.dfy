/** The writer task: frames of queued packets batched into one buffer per write. */
module Writer {
  import opened Bytes
  import opened Sequences
  import opened PacketIo
  import J = JvCryption
  import opened Wrappers

  /** The session's sending state: AES, else JvCryption, else neither.  `sequenceAt`
    * is the counter another task may change: its value when packet `i` is framed. */
  datatype Sender = Sender(aes: Aes, aesEnabled: bool, tkey: bv64, jvEnabled: bool, sequenceAt: nat -> nat)

  /** What building a frame appends, and whether it succeeded. */
  datatype Built = Built(ok: bool, bytes: seq<byte>)

  /** Opcodes the client must never see. */
  predicate Blocked(p: Packet) { p.opcode == 0xE9 || p.opcode == 0xC7 }

  function Body(p: Packet): seq<byte> { [p.opcode] + p.data }

  // ------------------------------------------------------------- building a frame

  /** Plaintext and AES frames are checked before anything is appended. */
  function BuildChecked(payload: seq<byte>): Built
  {
    if |payload| > U16_MAX then Built(false, []) else Built(true, Frame(payload))
  }

  /** The other frames are appended first; too long a payload leaves its header, an
    * unpatched zero length and the payload behind. */
  function BuildUnchecked(payload: seq<byte>): Built
  {
    if |payload| > U16_MAX then Built(false, HEADER + [0, 0] + payload) else Built(true, Frame(payload))
  }

  /** The payload of the JvCryption branch: magic, 16-bit counter, zero, body. */
  function JvPayload(tkey: bv64, sequence: nat, p: Packet): seq<byte>
  {
    J.Transformed(tkey, [0xFC, 0x1E] + LeBytes(sequence % 0x1_0000, 2) + [0] + Body(p))
  }

  /** `build_frame`: what it appends to the buffer. */
  function FrameBuilt(s: Sender, sequence: nat, p: Packet): Built
  {
    if p.plaintext then BuildChecked(Body(p))
    else if s.aesEnabled then BuildChecked([AES_FLAG] + s.aes.encrypt(Body(p)))
    else if s.jvEnabled then BuildUnchecked(JvPayload(s.tkey, sequence, p))
    else BuildUnchecked(Body(p))
  }

  lemma Unpatched(before: seq<byte>, payload: seq<byte>)
    ensures before + HEADER + [0, 0] + payload == before + (HEADER + [0, 0] + payload)
  {
  }

  lemma Patched(before: seq<byte>, payload: seq<byte>, len: seq<byte>)
    requires |len| == 2
    ensures var buf := before + (HEADER + [0, 0] + payload);
      buf[..|before| + 2] + len + buf[|before| + 4..] + FOOTER == before + (HEADER + len + payload + FOOTER)
  {
    var buf := before + (HEADER + [0, 0] + payload);
    assert buf[..|before| + 2] == before + HEADER;
    assert buf[|before| + 4..] == payload;
  }

  /** The frame buffer that is reused from write to write. */
  class Batch {
    var buf: seq<byte>

    constructor ()
      ensures buf == []
    {
      buf := [];
    }

    /** `build_frame`, `build_frame_aes` and `build_frame_plaintext`. */
    method BuildFrame(s: Sender, sequence: nat, p: Packet) returns (ok: bool)
      modifies this
      ensures ok == FrameBuilt(s, sequence, p).ok
      ensures buf == old(buf) + FrameBuilt(s, sequence, p).bytes
    {
      hide BuildChecked, BuildUnchecked, LeBytes, J.Transformed;
      if p.plaintext {
        ok := AppendChecked([p.opcode] + p.data);
      } else if s.aesEnabled {
        var ciphertext := s.aes.encrypt([p.opcode] + p.data);
        ok := AppendChecked([AES_FLAG] + ciphertext);
      } else {
        ok := AppendUnchecked(if s.jvEnabled then JvPayload(s.tkey, sequence, p) else [p.opcode] + p.data);
      }
    }

    /** Header and length placeholder, payload, then the length patched in place and the footer. */
    method AppendUnchecked(payload: seq<byte>) returns (ok: bool)
      modifies this
      ensures ok == BuildUnchecked(payload).ok && buf == old(buf) + BuildUnchecked(payload).bytes
    {
      hide LeBytes;
      ghost var before := buf;
      var frameStart := |buf|;
      buf := buf + HEADER;
      buf := buf + [0, 0];
      var payloadStart := frameStart + 4;
      buf := buf + payload;
      Unpatched(before, payload);
      var payloadLen := |buf| - payloadStart;
      if payloadLen > U16_MAX {
        return false;
      }
      Patched(before, payload, LeBytes(payloadLen, 2));
      buf := buf[..frameStart + 2] + LeBytes(payloadLen, 2) + buf[frameStart + 4..];
      buf := buf + FOOTER;
      return true;
    }

    method AppendChecked(payload: seq<byte>) returns (ok: bool)
      modifies this
      ensures ok == BuildChecked(payload).ok && buf == old(buf) + BuildChecked(payload).bytes
    {
      hide LeBytes;
      ghost var before := buf;
      if |payload| > U16_MAX {
        assert buf == before + [];
        return false;
      }
      buf := buf + HEADER;
      buf := buf + LeBytes(|payload|, 2);
      buf := buf + payload;
      buf := buf + FOOTER;
      assert buf == before + Frame(payload);
      return true;
    }
  }

  // ------------------------------------------------------------------ the main loop

  /** The bytes written from packet `i` on.  `ready(i)` says whether packet `i` had
    * arrived when the drain loop asked; it stands for every schedule.  While
    * draining, a failed build ends the batch but the batch is still written. */
  function Written(s: Sender, queue: seq<Packet>, ready: nat -> bool, i: nat, draining: bool): seq<byte>
    requires i <= |queue|
    decreases |queue| - i, draining
  {
    if i == |queue| then []
    else if draining && !ready(i) then Written(s, queue, ready, i, false)
    else if Blocked(queue[i]) then Written(s, queue, ready, i + 1, draining)
    else
      var b := FrameBuilt(s, s.sequenceAt(i), queue[i]);
      if draining then b.bytes + Written(s, queue, ready, i + 1, b.ok)
      else if b.ok then b.bytes + Written(s, queue, ready, i + 1, true)
      else []
  }

  /** The drain loop: frames of the packets that have already arrived. */
  method Drain(s: Sender, queue: seq<Packet>, ready: nat -> bool, start: nat, batch: Batch) returns (i: nat)
    requires start <= |queue|
    modifies batch
    ensures start <= i <= |queue|
    ensures batch.buf + Written(s, queue, ready, i, false) == old(batch.buf) + Written(s, queue, ready, start, true)
  {
    hide FrameBuilt;
    i := start;
    while i < |queue| && ready(i)
      invariant start <= i <= |queue|
      invariant batch.buf + Written(s, queue, ready, i, true) == old(batch.buf) + Written(s, queue, ready, start, true)
    {
      var packet := queue[i];
      i := i + 1;
      if Blocked(packet) {
        continue;
      }
      Regroup(batch.buf, FrameBuilt(s, s.sequenceAt(i - 1), packet).bytes,
        Written(s, queue, ready, i, FrameBuilt(s, s.sequenceAt(i - 1), packet).ok));
      var ok := batch.BuildFrame(s, s.sequenceAt(i - 1), packet);
      if !ok {
        return;
      }
    }
  }

  /** `writer_loop`: receive, drain, write, until the channel is closed. */
  method WriterLoop(s: Sender, queue: seq<Packet>, ready: nat -> bool) returns (wire: seq<byte>)
    ensures wire == Written(s, queue, ready, 0, false)
  {
    hide FrameBuilt;
    wire := [];
    var batch := new Batch();
    var i := 0;
    while i < |queue|
      invariant 0 <= i <= |queue|
      invariant wire + Written(s, queue, ready, i, false) == Written(s, queue, ready, 0, false)
    {
      var first := queue[i];
      i := i + 1;
      if Blocked(first) {
        continue;
      }
      batch.buf := [];
      ghost var built := FrameBuilt(s, s.sequenceAt(i - 1), first);
      var ok := batch.BuildFrame(s, s.sequenceAt(i - 1), first);
      if !ok {
        assert wire + [] == wire;
        return;
      }
      assert batch.buf == built.bytes;
      ghost var before := i;
      i := Drain(s, queue, ready, i, batch);
      Regroup(wire, batch.buf, Written(s, queue, ready, i, false));
      wire := wire + batch.buf;
    }
  }

  // ---------------------------------------------------------------- with AES enabled

  /** The payload of a packet's frame when AES is on. */
  function AesPayload(aes: Aes, p: Packet): seq<byte>
  {
    if p.plaintext then Body(p) else [AES_FLAG] + aes.encrypt(Body(p))
  }

  predicate Fits(aes: Aes, p: Packet) { |AesPayload(aes, p)| <= U16_MAX }

  function Frames(aes: Aes, ps: seq<Packet>): seq<byte>
    requires forall p :: p in ps ==> Fits(aes, p)
  {
    if ps == [] then [] else
      assert Fits(aes, ps[0]);
      Frame(AesPayload(aes, ps[0])) + Frames(aes, ps[1..])
  }

  /** The packets whose frames are written under a given schedule. */
  function Sent(aes: Aes, queue: seq<Packet>, ready: nat -> bool, i: nat, draining: bool): (r: seq<Packet>)
    requires i <= |queue|
    ensures forall p :: p in r ==> Fits(aes, p) && !Blocked(p) && p in queue
    decreases |queue| - i, draining
  {
    if i == |queue| then []
    else if draining && !ready(i) then Sent(aes, queue, ready, i, false)
    else if Blocked(queue[i]) then Sent(aes, queue, ready, i + 1, draining)
    else if Fits(aes, queue[i]) then [queue[i]] + Sent(aes, queue, ready, i + 1, true)
    else if draining then Sent(aes, queue, ready, i + 1, false)
    else []
  }

  /** With AES on, the wire is always whole frames of the packets sent, in order. */
  lemma {:induction false} WrittenIsFrames(s: Sender, queue: seq<Packet>, ready: nat -> bool, i: nat, draining: bool)
    requires s.aesEnabled && i <= |queue|
    ensures Written(s, queue, ready, i, draining) == Frames(s.aes, Sent(s.aes, queue, ready, i, draining))
    decreases |queue| - i, draining
  {
    hide Frame, FrameBuilt, Frames, AesPayload, Blocked;
    if i < |queue| {
      AesBuilt(s, i, queue[i]);
    }
    if i == |queue| {
      NoPackets(s.aes);
    } else if draining && !ready(i) {
      WrittenIsFrames(s, queue, ready, i, false);
    } else if Blocked(queue[i]) {
      WrittenIsFrames(s, queue, ready, i + 1, draining);
    } else if Fits(s.aes, queue[i]) {
      WrittenIsFrames(s, queue, ready, i + 1, true);
      FramesFirst(s.aes, queue[i], Sent(s.aes, queue, ready, i + 1, true));
    } else if draining {
      WrittenIsFrames(s, queue, ready, i + 1, false);
    } else {
      NoPackets(s.aes);
    }
  }

  lemma NoPackets(aes: Aes)
    ensures Frames(aes, []) == []
  {
  }

  lemma AesBuilt(s: Sender, i: nat, p: Packet)
    requires s.aesEnabled
    ensures FrameBuilt(s, s.sequenceAt(i), p)
      == if Fits(s.aes, p) then Built(true, Frame(AesPayload(s.aes, p))) else Built(false, [])
  {
    hide Frame;
  }

  lemma FramesFirst(aes: Aes, p: Packet, rest: seq<Packet>)
    requires Fits(aes, p) && forall q :: q in rest ==> Fits(aes, q)
    ensures Frames(aes, [p] + rest) == Frame(AesPayload(aes, p)) + Frames(aes, rest)
  {
    assert ([p] + rest)[1..] == rest;
  }

  /** The queued packets without the blocked opcodes. */
  function Deliverable(queue: seq<Packet>): seq<Packet>
  {
    if queue == [] then []
    else (if Blocked(queue[0]) then [] else [queue[0]]) + Deliverable(queue[1..])
  }

  /** How often a packet of the queue is delivered: never with one of the two opcodes the client
    * must not see, and else as often as it was queued. */
  lemma {:induction false} DeliverableExactly(queue: seq<Packet>, p: Packet)
    ensures multiset(Deliverable(queue))[p]
      == if p.opcode == 0xE9 || p.opcode == 0xC7 then 0 else multiset(queue)[p]
  {
    if queue != [] {
      DeliverableExactly(queue[1..], p);
      assert queue == [queue[0]] + queue[1..];
    }
  }

  // ------------------------------------------------------------- reading them back

  /** The receiver tells plaintext by its first byte, and wants two bytes. */
  predicate Readable(p: Packet) { !p.plaintext || (p.opcode != AES_FLAG && p.data != []) }

  /** One frame is read back as its packet exactly when the packet is readable. */
  lemma FrameReadExactly(aes: Aes, p: Packet, rest: seq<byte>)
    requires aes.Sound() && Fits(aes, p)
    ensures ReadAes(aes, false, Frame(AesPayload(aes, p)) + rest) == Ok((Received(p), rest)) <==> Readable(p)
  {
    hide Frame, ReadFrame;
    var payload := AesPayload(aes, p);
    FrameRoundTrip(payload, rest, 2);
    assert payload[1..] == if p.plaintext then p.data else aes.encrypt(Body(p));
    assert Body(p)[1..] == p.data;
    if p.plaintext && p.opcode == AES_FLAG && p.data != [] {
      // Taken for ciphertext: what decrypts out of it is shorter than the packet.
      if aes.decrypt(p.data).Some? {
        assert |aes.decrypt(p.data).value| < |p.data|;
      }
    }
  }

  /** Repeated reads of the wire give exactly the queued packets without the blocked ones, in
    * order, and leave nothing over. */
  predicate Delivered(aes: Aes, wire: seq<byte>, ps: seq<Packet>)
  {
    var (read, left) := ReadAllAes(aes, false, wire);
    left == [] && AllReceived(read, ps)
  }

  predicate AllReceived(read: seq<Packet>, ps: seq<Packet>)
  {
    |read| == |ps| && forall i :: 0 <= i < |read| ==> read[i] == Received(ps[i])
  }

  /** No more packets are read than frames were written; a packet that is not readable is lost. */
  lemma {:induction false} FramesReadExactly(aes: Aes, ps: seq<Packet>)
    requires aes.Sound() && forall p :: p in ps ==> Fits(aes, p)
    ensures |ReadAllAes(aes, false, Frames(aes, ps)).0| <= |ps|
    ensures Delivered(aes, Frames(aes, ps), ps) <==> forall p :: p in ps ==> Readable(p)
  {
    hide Frame, ReadAes, Fits, Readable;
    if ps == [] {
      NothingRead(aes);
    } else {
      FrameReadExactly(aes, ps[0], Frames(aes, ps[1..]));
      FrameRest(aes, ps[0], Frames(aes, ps[1..]));
      FramesReadExactly(aes, ps[1..]);
      if Readable(ps[0]) {
        DeliveredRest(aes, ps);
      }
    }
  }

  lemma NothingRead(aes: Aes)
    ensures ReadAllAes(aes, false, []) == ([], [])
  {
  }

  lemma DeliveredRest(aes: Aes, ps: seq<Packet>)
    requires aes.Sound() && ps != [] && forall p :: p in ps ==> Fits(aes, p)
    requires Readable(ps[0])
    ensures Delivered(aes, Frames(aes, ps), ps) <==> Delivered(aes, Frames(aes, ps[1..]), ps[1..])
  {
    hide Frame, ReadAes, Fits, Readable, AllReceived;
    FrameReadExactly(aes, ps[0], Frames(aes, ps[1..]));
    ReceivedFirst(ReadAllAes(aes, false, Frames(aes, ps[1..])).0, ps);
  }

  lemma ReceivedFirst(later: seq<Packet>, ps: seq<Packet>)
    requires ps != []
    ensures AllReceived([Received(ps[0])] + later, ps) <==> AllReceived(later, ps[1..])
  {
    var read := [Received(ps[0])] + later;
    assert forall i :: 0 <= i < |later| ==> read[i + 1] == later[i];
    assert forall i :: 0 <= i < |ps| - 1 ==> ps[i + 1] == ps[1..][i];
  }

  /** Whatever is made of a frame, reading goes on behind it. */
  lemma FrameRest(aes: Aes, p: Packet, rest: seq<byte>)
    requires Fits(aes, p)
    ensures var r := ReadAes(aes, false, Frame(AesPayload(aes, p)) + rest);
      r.Ok? ==> r.value.1 == rest
  {
    hide Frame, ReadFrame, AesPayload, OpenAes;
    FrameRoundTrip(AesPayload(aes, p), rest, 2);
  }

  // ---------------------------------------------------------- what the schedule changes

  /** How many packets at the front fit. */
  function FitCount(aes: Aes, ps: seq<Packet>): (m: nat)
    ensures m <= |ps| && (forall p :: p in ps[..m] ==> Fits(aes, p)) && (m < |ps| ==> !Fits(aes, ps[m]))
  {
    if ps == [] || !Fits(aes, ps[0]) then 0
    else
      assert forall p :: p in ps[..1 + FitCount(aes, ps[1..])] ==> p == ps[0] || p in ps[1..][..FitCount(aes, ps[1..])];
      1 + FitCount(aes, ps[1..])
  }

  /** Received on its own, the first packet that does not fit ends the task; drained, it only
    * ends the batch.  That makes no difference when it comes first, or last, or when the
    * packet after it ends the task anyway. */
  predicate ScheduleFree(aes: Aes, ps: seq<Packet>, draining: bool)
  {
    var m := FitCount(aes, ps);
    m == |ps| || (m == 0 && !draining) || m + 1 == |ps| || !Fits(aes, ps[m + 1])
  }

  lemma FitStep(aes: Aes, p: Packet, ps: seq<Packet>, draining: bool)
    ensures Fits(aes, p) ==> FitCount(aes, [p] + ps) == 1 + FitCount(aes, ps)
    ensures Fits(aes, p) ==> ([p] + ps)[..FitCount(aes, [p] + ps)] == [p] + ps[..FitCount(aes, ps)]
    ensures Fits(aes, p) ==> (ScheduleFree(aes, [p] + ps, draining) <==> ScheduleFree(aes, ps, true))
    ensures !Fits(aes, p) ==> FitCount(aes, [p] + ps) == 0 && ([p] + ps)[..0] == []
    ensures !Fits(aes, p) ==> (ScheduleFree(aes, [p] + ps, draining) <==> !draining || FitCount(aes, ps) == 0)
  {
    hide Fits;
    assert ([p] + ps)[1..] == ps;
  }

  lemma DeliverableStep(queue: seq<Packet>, i: nat)
    requires i < |queue|
    ensures Deliverable(queue[i..])
      == (if Blocked(queue[i]) then [] else [queue[i]]) + Deliverable(queue[i + 1..])
    ensures Blocked(queue[i]) ==> Deliverable(queue[i..]) == Deliverable(queue[i + 1..])
  {
    assert queue[i..][1..] == queue[i + 1..];
  }

  /** Where the schedule makes no difference, the packets sent are those before the first that
    * does not fit; when nothing is ever ready, they always are. */
  lemma {:induction false} SentIsFitting(aes: Aes, queue: seq<Packet>, ready: nat -> bool, i: nat, draining: bool)
    requires i <= |queue|
    requires ScheduleFree(aes, Deliverable(queue[i..]), draining) || ready == NeverReady
    ensures var ps := Deliverable(queue[i..]);
      Sent(aes, queue, ready, i, draining) == ps[..FitCount(aes, ps)]
    decreases |queue| - i, draining
  {
    hide Fits, Blocked, ScheduleFree, FitCount;
    if i < |queue| {
      DeliverableStep(queue, i);
      FitStep(aes, queue[i], Deliverable(queue[i + 1..]), draining);
      if draining && !ready(i) {
        LessFree(aes, Deliverable(queue[i..]));
        SentIsFitting(aes, queue, ready, i, false);
      } else if Blocked(queue[i]) {
        SentIsFitting(aes, queue, ready, i + 1, draining);
      } else if Fits(aes, queue[i]) {
        SentIsFitting(aes, queue, ready, i + 1, true);
      } else if draining {
        StopsAtOnce(aes, Deliverable(queue[i + 1..]));
        SentIsFitting(aes, queue, ready, i + 1, false);
      }
    }
  }

  function NeverReady(i: nat): bool { false }

  function AlwaysReady(i: nat): bool { true }

  lemma LessFree(aes: Aes, ps: seq<Packet>)
    ensures ScheduleFree(aes, ps, true) ==> ScheduleFree(aes, ps, false)
  {
  }

  lemma StopsAtOnce(aes: Aes, ps: seq<Packet>)
    requires FitCount(aes, ps) == 0
    ensures ScheduleFree(aes, ps, false)
  {
  }

  /** Otherwise more is sent when everything is ready at once. */
  lemma {:induction false} SentIsMore(aes: Aes, queue: seq<Packet>, i: nat, draining: bool)
    requires i <= |queue| && !ScheduleFree(aes, Deliverable(queue[i..]), draining)
    ensures var ps := Deliverable(queue[i..]);
      ps[..FitCount(aes, ps)] < Sent(aes, queue, AlwaysReady, i, draining)
    decreases |queue| - i
  {
    hide Sent, Fits, Blocked, ScheduleFree, FitCount;
    assert i < |queue| by { NothingFits(aes, queue, i); }
    DeliverableStep(queue, i);
    SentStep(aes, queue, i, draining);
    FitStep(aes, queue[i], Deliverable(queue[i + 1..]), draining);
    if Blocked(queue[i]) {
      SentIsMore(aes, queue, i + 1, draining);
    } else if Fits(aes, queue[i]) {
      SentIsMore(aes, queue, i + 1, true);
    } else {
      SomethingSent(aes, queue, i + 1);
    }
  }

  lemma NothingFits(aes: Aes, queue: seq<Packet>, i: nat)
    requires i <= |queue|
    ensures i == |queue| ==>
      FitCount(aes, Deliverable(queue[i..])) == 0 && forall d :: ScheduleFree(aes, Deliverable(queue[i..]), d)
  {
  }

  lemma SentStep(aes: Aes, queue: seq<Packet>, i: nat, draining: bool)
    requires i < |queue|
    ensures Sent(aes, queue, AlwaysReady, i, draining)
      == if Blocked(queue[i]) then Sent(aes, queue, AlwaysReady, i + 1, draining)
         else if Fits(aes, queue[i]) then [queue[i]] + Sent(aes, queue, AlwaysReady, i + 1, true)
         else if draining then Sent(aes, queue, AlwaysReady, i + 1, false)
         else []
  {
    hide Fits, Blocked;
  }

  /** A first packet that fits is sent. */
  lemma {:induction false} SomethingSent(aes: Aes, queue: seq<Packet>, i: nat)
    requires i <= |queue| && FitCount(aes, Deliverable(queue[i..])) > 0
    ensures Sent(aes, queue, AlwaysReady, i, false) != []
    decreases |queue| - i
  {
    assert i < |queue| by { NothingFits(aes, queue, i); }
    hide Fits, Blocked, FitCount;
    DeliverableStep(queue, i);
    FitStep(aes, queue[i], Deliverable(queue[i + 1..]), false);
    if Blocked(queue[i]) {
      SomethingSent(aes, queue, i + 1);
    }
  }

  lemma {:induction false} MoreFrames(aes: Aes, a: seq<Packet>, b: seq<Packet>)
    requires a < b && forall p :: p in b ==> Fits(aes, p)
    ensures forall p :: p in a ==> Fits(aes, p)
    ensures |Frames(aes, a)| < |Frames(aes, b)|
  {
    hide Fits, AesPayload;
    if a != [] {
      MoreFrames(aes, a[1..], b[1..]);
    }
  }

  predicate SameWire(s: Sender, queue: seq<Packet>, r1: nat -> bool, r2: nat -> bool)
  {
    Written(s, queue, r1, 0, false) == Written(s, queue, r2, 0, false)
  }

  /** With AES on, the schedule makes no difference to the wire exactly in the cases of
    * `ScheduleFree`; when nothing is ever drained, the wire ends before the first packet
    * that does not fit. */
  lemma ScheduleMattersExactly(s: Sender, queue: seq<Packet>)
    requires s.aesEnabled
    ensures (forall r1, r2 :: SameWire(s, queue, r1, r2)) <==> ScheduleFree(s.aes, Deliverable(queue), false)
    ensures var ps := Deliverable(queue);
      Written(s, queue, NeverReady, 0, false) == Frames(s.aes, ps[..FitCount(s.aes, ps)])
  {
    hide Written, Sent, Frames, Fits, FitCount, ScheduleFree;
    assert queue[0..] == queue;
    var ps := Deliverable(queue);
    var front := ps[..FitCount(s.aes, ps)];
    forall ready
      ensures Written(s, queue, ready, 0, false) == Frames(s.aes, Sent(s.aes, queue, ready, 0, false))
    {
      WrittenIsFrames(s, queue, ready, 0, false);
    }
    SentIsFitting(s.aes, queue, NeverReady, 0, false);
    if ScheduleFree(s.aes, ps, false) {
      forall ready
        ensures Sent(s.aes, queue, ready, 0, false) == front
      {
        SentIsFitting(s.aes, queue, ready, 0, false);
      }
    } else {
      SentIsMore(s.aes, queue, 0, false);
      MoreFrames(s.aes, front, Sent(s.aes, queue, AlwaysReady, 0, false));
      assert !SameWire(s, queue, NeverReady, AlwaysReady);
    }
  }

  /** Under the schedule the whole queue is delivered. */
  predicate DeliversAll(s: Sender, queue: seq<Packet>, ready: nat -> bool)
  {
    Delivered(s.aes, Written(s, queue, ready, 0, false), Deliverable(queue))
  }

  /** With AES on, every schedule delivers the whole queue exactly when every packet that is
    * not blocked fits into a frame and is readable. */
  lemma BatchingInvisible(s: Sender, queue: seq<Packet>)
    requires s.aesEnabled && s.aes.Sound()
    ensures (forall ready :: DeliversAll(s, queue, ready))
      <==> forall p :: p in Deliverable(queue) ==> Fits(s.aes, p) && Readable(p)
  {
    hide Fits, Readable, DeliversAll, Deliverable;
    if forall p :: p in Deliverable(queue) ==> Fits(s.aes, p) {
      forall ready
        ensures DeliversAll(s, queue, ready) <==> forall p :: p in Deliverable(queue) ==> Readable(p)
      {
        DeliversExactly(s, queue, ready);
      }
      assert DeliversAll(s, queue, NeverReady) <==> forall p :: p in Deliverable(queue) ==> Readable(p);
    } else {
      NotDelivered(s, queue);
      assert !DeliversAll(s, queue, NeverReady);
    }
  }

  lemma DeliversExactly(s: Sender, queue: seq<Packet>, ready: nat -> bool)
    requires s.aesEnabled && s.aes.Sound() && forall p :: p in Deliverable(queue) ==> Fits(s.aes, p)
    ensures DeliversAll(s, queue, ready) <==> forall p :: p in Deliverable(queue) ==> Readable(p)
  {
    hide Written, Frames, Fits, Readable, Delivered, Deliverable;
    AllWritten(s, queue, ready);
    FramesReadExactly(s.aes, Deliverable(queue));
  }

  lemma AllWritten(s: Sender, queue: seq<Packet>, ready: nat -> bool)
    requires s.aesEnabled && forall p :: p in Deliverable(queue) ==> Fits(s.aes, p)
    ensures Written(s, queue, ready, 0, false) == Frames(s.aes, Deliverable(queue))
  {
    hide Written, Sent, Frames, Fits, FitCount, ScheduleFree;
    assert queue[0..] == queue;
    WrittenIsFrames(s, queue, ready, 0, false);
    AllFit(s.aes, Deliverable(queue));
    SentIsFitting(s.aes, queue, ready, 0, false);
  }

  lemma AllFit(aes: Aes, ps: seq<Packet>)
    requires forall p :: p in ps ==> Fits(aes, p)
    ensures FitCount(aes, ps) == |ps| && ps[..|ps|] == ps && ScheduleFree(aes, ps, false)
  {
  }

  lemma NotDelivered(s: Sender, queue: seq<Packet>)
    requires s.aesEnabled && s.aes.Sound() && exists p :: p in Deliverable(queue) && !Fits(s.aes, p)
    ensures !DeliversAll(s, queue, NeverReady)
  {
    hide Written, Sent, Frames, Fits, ScheduleFree, ReadAllAes;
    var ps := Deliverable(queue);
    var m := FitCount(s.aes, ps);
    assert ps[..|ps|] == ps;
    assert m < |ps|;
    ScheduleMattersExactly(s, queue);
    FramesReadExactly(s.aes, ps[..m]);
  }

  // ------------------------------------------------------------ with encryption off

  /** The payload of a packet's frame when AES is off. */
  function PayloadAt(s: Sender, i: nat, p: Packet): seq<byte>
  {
    if !p.plaintext && s.jvEnabled then JvPayload(s.tkey, s.sequenceAt(i), p) else Body(p)
  }

  /** What decrypting a written payload gives: magic, the low 16 bits of the counter, zero,
    * opcode and data; a payload that is not encrypted is opcode and data. */
  lemma PayloadDecrypts(s: Sender, i: nat, p: Packet)
    ensures p.plaintext || !s.jvEnabled ==> PayloadAt(s, i, p) == [p.opcode] + p.data
    ensures !p.plaintext && s.jvEnabled ==>
      var plain := J.Transformed(s.tkey, PayloadAt(s, i, p));
      && |plain| == 6 + |p.data|
      && plain[0] == 0xFC && plain[1] == 0x1E
      && plain[2] as int + 256 * (plain[3] as int) == s.sequenceAt(i) % 65536
      && plain[4] == 0 && plain[5] == p.opcode && plain[6..] == p.data
  {
    hide J.Transformed, LeBytes;
    if !p.plaintext && s.jvEnabled {
      var n := s.sequenceAt(i) % 0x1_0000;
      var count := LeBytes(n, 2);
      var plain := [0xFC, 0x1E] + count + [0] + Body(p);
      J.TransformInvolution(s.tkey, plain);
      TwoBytes(n);
      assert plain[2] == count[0] && plain[3] == count[1];
      assert plain[6..] == p.data;
    }
  }

  /** The payloads framed, in order, until a packet that does not fit and is not marked
    * plaintext is drained; and whether there is such a packet. */
  function Framed(s: Sender, queue: seq<Packet>, ready: nat -> bool, i: nat, draining: bool): (seq<seq<byte>>, bool)
    requires i <= |queue|
    decreases |queue| - i, draining
  {
    if i == |queue| then ([], false)
    else if draining && !ready(i) then Framed(s, queue, ready, i, false)
    else if Blocked(queue[i]) then Framed(s, queue, ready, i + 1, draining)
    else
      var payload := PayloadAt(s, i, queue[i]);
      if |payload| <= U16_MAX then
        var (later, torn) := Framed(s, queue, ready, i + 1, true);
        ([payload] + later, torn)
      else if !draining then ([], false)
      else if queue[i].plaintext then Framed(s, queue, ready, i + 1, false)
      else ([], true)
  }

  /** Repeated reads of frames with at least one byte, and where they stop. */
  function ReadAllFrames(stream: seq<byte>): (seq<seq<byte>>, seq<byte>)
    decreases |stream|
  {
    match ReadFrame(stream, 1)
    case Err(_) => ([], stream)
    case Ok((payload, rest)) =>
      var (later, stop) := ReadAllFrames(rest);
      ([payload] + later, stop)
  }

  /** Without AES the wire is whole frames exactly when no packet that does not fit is drained
    * into a frame.  Such a packet leaves a torn frame: everything before it is read, and the
    * reader stops there with a length error, whatever follows. */
  lemma {:induction false} TornFrame(s: Sender, queue: seq<Packet>, ready: nat -> bool, i: nat, draining: bool)
    requires !s.aesEnabled && i <= |queue|
    ensures var (payloads, torn) := Framed(s, queue, ready, i, draining);
      var (read, left) := ReadAllFrames(Written(s, queue, ready, i, draining));
      && read == payloads
      && (left == [] <==> !torn)
      && (torn ==> ReadFrame(left, 1) == Err(InvalidLength(0)))
    decreases |queue| - i, draining
  {
    hide Frame, ReadFrame, JvPayload, Blocked;
    if i == |queue| {
      NoFrames();
    } else if draining && !ready(i) {
      TornFrame(s, queue, ready, i, false);
    } else if Blocked(queue[i]) {
      TornFrame(s, queue, ready, i + 1, draining);
    } else {
      var payload := PayloadAt(s, i, queue[i]);
      BuiltWithoutAes(s, i, queue[i]);
      hide FrameBuilt, PayloadAt;
      if |payload| <= U16_MAX {
        TornFrame(s, queue, ready, i + 1, true);
        FrameRoundTrip(payload, Written(s, queue, ready, i + 1, true), 1);
      } else if !draining {
        NoFrames();
      } else if queue[i].plaintext {
        TornFrame(s, queue, ready, i + 1, false);
        assert [] + Written(s, queue, ready, i + 1, false) == Written(s, queue, ready, i + 1, false);
      } else {
        TornRejected(payload, Written(s, queue, ready, i + 1, false));
      }
    }
  }

  lemma NoFrames()
    ensures ReadFrame([], 1) == Err(UnexpectedEof) && ReadAllFrames([]) == ([], [])
  {
  }

  lemma BuiltWithoutAes(s: Sender, i: nat, p: Packet)
    requires !s.aesEnabled
    ensures var payload := PayloadAt(s, i, p);
      && |payload| >= 1
      && FrameBuilt(s, s.sequenceAt(i), p)
        == if |payload| <= U16_MAX then Built(true, Frame(payload))
           else Built(false, if p.plaintext then [] else HEADER + [0, 0] + payload)
  {
    hide LeBytes, Frame;
  }

  lemma TornRejected(payload: seq<byte>, later: seq<byte>)
    ensures var stream := HEADER + [0, 0] + payload + later;
      ReadFrame(stream, 1) == Err(InvalidLength(0)) && ReadAllFrames(stream) == ([], stream)
  {
    hide LeBytes, Le2;
    var stream := HEADER + [0, 0] + payload + later;
    assert stream[..2] == HEADER && stream[2..4] == [0, 0];
    assert LeBytes(0, 2) == [0, 0] by { ZeroLength(); }
    FixedWidthRoundTrips(0);
  }

  lemma ZeroLength()
    ensures LeBytes(0, 2) == [0, 0]
  {
    assert LeBytes(0, 1) == [0] + LeBytes(0, 0);
    assert LeBytes(0, 2) == [0] + LeBytes(0, 1);
  }

  /** Every schedule leaves whole frames exactly when the one that drains all it can does. */
  lemma WholeExactly(s: Sender, queue: seq<Packet>)
    requires !s.aesEnabled
    ensures (forall ready :: ReadAllFrames(Written(s, queue, ready, 0, false)).1 == [])
      <==> !Framed(s, queue, AlwaysReady, 0, false).1
  {
    hide Written, Framed, ReadAllFrames;
    forall ready
      ensures ReadAllFrames(Written(s, queue, ready, 0, false)).1 == [] <==> !Framed(s, queue, ready, 0, false).1
      ensures Framed(s, queue, ready, 0, false).1 ==> Framed(s, queue, AlwaysReady, 0, false).1
    {
      TornFrame(s, queue, ready, 0, false);
      TearsWhenReady(s, queue, ready, 0, false);
    }
    assert Framed(s, queue, AlwaysReady, 0, false).1
      ==> ReadAllFrames(Written(s, queue, AlwaysReady, 0, false)).1 != [];
  }

  lemma {:induction false} TearsWhenReady(s: Sender, queue: seq<Packet>, ready: nat -> bool, i: nat, draining: bool)
    requires i <= |queue|
    ensures Framed(s, queue, ready, i, draining).1 ==> Framed(s, queue, AlwaysReady, i, draining).1
    ensures Framed(s, queue, AlwaysReady, i, false).1 ==> Framed(s, queue, AlwaysReady, i, true).1
    decreases |queue| - i, draining
  {
    hide PayloadAt, Blocked;
    if i < |queue| {
      if draining {
        TearsWhenReady(s, queue, ready, i, false);
      }
      TearsWhenReady(s, queue, ready, i + 1, draining);
      TearsWhenReady(s, queue, ready, i + 1, true);
      TearsWhenReady(s, queue, ready, i + 1, false);
    }
  }
}
