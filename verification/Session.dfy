/**
 A session: the loop that takes packets out of the receive buffer, and the writer that sends a batch of
 payloads as packets.
 */
module Sessions {
  import opened Framing
  import opened RecvBuffers

  /** The frames that a handler is called for. */
  function Handled(frames: seq<Frame>, handlers: set<nat>): seq<Frame> {
    if |frames| == 0 then []
    else Handled(frames[..|frames| - 1], handlers)
         + if frames[|frames| - 1].id in handlers then [frames[|frames| - 1]] else []
  }

  lemma {:induction false} HandledConcat(a: seq<Frame>, b: seq<Frame>, handlers: set<nat>)
    ensures Handled(a + b, handlers) == Handled(a, handlers) + Handled(b, handlers)
  {
    if |b| == 0 {
      assert a + b == a;
    } else {
      HandledConcat(a, b[..|b| - 1], handlers);
      assert (a + b)[..|a + b| - 1] == a + b[..|b| - 1];
    }
  }

  /** Each frame with a handler is handled in its place, and no other. */
  lemma HandledInPlace(before: seq<Frame>, frame: Frame, after: seq<Frame>, handlers: set<nat>)
    ensures Handled([], handlers) == []
    ensures Handled(before + [frame] + after, handlers) ==
            Handled(before, handlers) + (if frame.id in handlers then [frame] else []) + Handled(after, handlers)
  {
    assert [frame][..0] == [];
    HandledConcat(before, [frame], handlers);
    HandledConcat(before + [frame], after, handlers);
  }

  class Session {
    const recvBuffer: RecvBuffer
    /** The ids that the handler table has a handler for. */
    const handlers: set<nat>
    /** The calls of handlers, and what was handed to the socket, in order. */
    var dispatched: seq<Frame>
    var sent: seq<seq<Byte>>
    var closed: bool

    ghost predicate Valid()
      reads this, recvBuffer
    {
      recvBuffer.Valid() && recvBuffer.readPos == 0
    }

    ghost function Left(): seq<Byte>
      reads this, recvBuffer, recvBuffer.buffer
      requires Valid()
    {
      recvBuffer.Contents()
    }

    constructor (handlers: set<nat>)
      ensures Valid() && Left() == [] && dispatched == [] && sent == [] && !closed && this.handlers == handlers
      ensures fresh(recvBuffer) && fresh(recvBuffer.buffer)
    {
      recvBuffer := new RecvBuffer();
      this.handlers := handlers;
      dispatched, sent, closed := [], [], false;
    }

    /** A read completes: its bytes are in the buffer, and every complete packet is taken out. */
    method Receive(bytes: seq<Byte>)
      requires Valid() && |Left()| + |bytes| <= BUFFER_SIZE && WellFramed(Left() + bytes)
      modifies this, recvBuffer, recvBuffer.buffer
      ensures Valid() && sent == old(sent) && closed == (old(closed) || |bytes| == 0)
      ensures |bytes| > 0 ==> dispatched == old(dispatched) + Handled(Frames(old(Left()) + bytes), handlers)
      ensures |bytes| > 0 ==> Left() == Rest(old(Left()) + bytes)
      ensures |bytes| == 0 ==> dispatched == old(dispatched) && Left() == old(Left())
    {
      recvBuffer.Append(bytes);
      ProcessRecv(|bytes|);
    }

    /** RegisterRecv: as much of what has come as the writable space takes is read. */
    method RegisterRecv(available: seq<Byte>) returns (taken: nat)
      requires Valid() && |available| > 0 && WellFramed(Left() + available)
      modifies this, recvBuffer, recvBuffer.buffer
      ensures Valid() && sent == old(sent)
      ensures taken <= |available| && (taken == 0 <==> |old(Left())| == BUFFER_SIZE)
      ensures taken < |available| ==> |old(Left())| + taken == BUFFER_SIZE
      ensures taken > 0 ==>
                && closed == old(closed)
                && dispatched == old(dispatched) + Handled(Frames(old(Left()) + available[..taken]), handlers)
                && Left() == Rest(old(Left()) + available[..taken])
    {
      var writable := recvBuffer.GetWritableSize();
      taken := if |available| <= writable then |available| else writable;
      ghost var now := Left() + available[..taken];
      assert now + available[taken..] == Left() + available;
      WellFramedPrefix(now, available[taken..]);
      Receive(available[..taken]);
    }

    /** RegisterRecv again and again: whatever the reads, the packets handled are the frames of the
        whole stream. */
    method ReceiveAll(chunks: seq<seq<Byte>>)
      requires Valid() && Left() == [] && WellFramed(Joined(chunks))
      requires forall i | 0 <= i < |chunks| :: FitsSpace(chunks, i)
      modifies this, recvBuffer, recvBuffer.buffer
      ensures Valid() && sent == old(sent) && closed == old(closed)
      ensures dispatched == old(dispatched) + Handled(Frames(Joined(chunks)), handlers)
      ensures Left() == Rest(Joined(chunks))
      ensures AllFit(Joined(chunks)) ==> |Left()| < BUFFER_SIZE
    {
      for i := 0 to |chunks|
        invariant Valid() && sent == old(sent) && closed == old(closed) && Left() == LeftAfter(chunks, i)
        invariant dispatched == old(dispatched) + HandledAfter(chunks, i, handlers)
      {
        assert FitsSpace(chunks, i);
        NextRead(chunks, i, handlers);
        Receive(chunks[i]);
      }
      assert chunks[..|chunks|] == chunks;
      CutsDoNotMatter(chunks);
      if AllFit(Joined(chunks)) {
        AlwaysRoom(chunks);
      }
    }

    method ProcessRecv(length: nat)
      requires Valid() && WellFramed(Left())
      modifies this, recvBuffer, recvBuffer.buffer
      ensures Valid() && sent == old(sent) && closed == (old(closed) || length == 0)
      ensures dispatched == old(dispatched) + if length == 0 then [] else Handled(Frames(old(Left())), handlers)
      ensures Left() == if length == 0 then old(Left()) else Rest(old(Left()))
    {
      if length == 0 {
        closed := true;
        return;
      }
      ghost var stream := Left();
      ghost var done: seq<Frame> := [];
      while true
        invariant Valid() && WellFramed(Left()) && sent == old(sent) && closed == old(closed)
        invariant done + Frames(Left()) == Frames(stream) && Rest(Left()) == Rest(stream)
        invariant dispatched == old(dispatched) + Handled(done, handlers)
        decreases |Left()|
      {
        var readable := recvBuffer.GetReadableSize();
        if readable < HEADER_SIZE {
          assert Frames(Left()) == [];
          break;
        }
        var packet := Peek();
        var pktSize, pktId := Size(packet), Id(packet);
        if readable < pktSize {
          assert Frames(Left()) == [];
          break;
        }
        ghost var frame := Frame(pktId, packet[HEADER_SIZE..pktSize]);
        TakeOne(packet, done, handlers);
        HandlePacket(packet, pktSize, pktId);
        done := done + [frame];
      }
      assert done + [] == done;
    }

    /** Handing the packet at the read position to its handler, if it has one, and moving past it. */
    method HandlePacket(packet: seq<Byte>, pktSize: nat, pktId: nat)
      requires Valid() && packet == Left() && HEADER_SIZE <= pktSize <= |packet|
      modifies this`dispatched, recvBuffer, recvBuffer.buffer
      ensures Valid() && Left() == old(Left())[pktSize..]
      ensures dispatched == old(dispatched)
                            + if pktId in handlers then [Frame(pktId, old(Left())[HEADER_SIZE..pktSize])] else []
    {
      if pktId in handlers {
        dispatched := dispatched + [Frame(pktId, packet[HEADER_SIZE..pktSize])];
      }
      recvBuffer.SetReadPos(pktSize);
      recvBuffer.Clear();
    }

    /** The bytes from the read position on. */
    method Peek() returns (bytes: seq<Byte>)
      requires Valid()
      ensures bytes == Left()
    {
      bytes := recvBuffer.buffer[recvBuffer.readPos..recvBuffer.writePos];
    }

    /** The payloads are written as packets into one buffer of the size reckoned before. */
    method Send(payloads: seq<seq<Byte>>)
      modifies this`sent
      ensures |Packets(payloads)| <= TotalSize(payloads)
      ensures sent == old(sent) + if payloads == [] then [] else [Encoded(payloads)]
    {
      PacketsFit(payloads);
      if |payloads| == 0 {
        return;
      }
      var totalSize := 0;
      for i := 0 to |payloads|
        invariant totalSize == TotalSize(payloads[..i])
      {
        totalSize := totalSize + |payloads[i]| + HEADER_SIZE;
        assert payloads[..i + 1][..i] == payloads[..i];
      }
      assert payloads[..|payloads|] == payloads;
      var sendBuffer := WritePackets(payloads, totalSize);
      sent := sent + [sendBuffer[..]];
    }
  }

  /** What the first i reads leave in the buffer, and what was handled for them. */
  function LeftAfter(chunks: seq<seq<Byte>>, i: nat): seq<Byte>
    requires i <= |chunks|
  {
    Received(chunks[..i]).1
  }

  function HandledAfter(chunks: seq<seq<Byte>>, i: nat, handlers: set<nat>): seq<Frame>
    requires i <= |chunks|
  {
    Handled(Received(chunks[..i]).0, handlers)
  }

  /** Read i is not empty and fits the writable space that the reads before it leave. */
  predicate FitsSpace(chunks: seq<seq<Byte>>, i: nat)
    requires i < |chunks|
  {
    0 < |chunks[i]| && |LeftAfter(chunks, i)| + |chunks[i]| <= BUFFER_SIZE
  }

  lemma {:induction false} JoinedPrefix(chunks: seq<seq<Byte>>, i: nat)
    requires WellFramed(Joined(chunks)) && i <= |chunks|
    ensures WellFramed(Joined(chunks[..i]))
    decreases |chunks| - i
  {
    if i < |chunks| {
      JoinedPrefix(chunks, i + 1);
      assert chunks[..i + 1][..i] == chunks[..i];
      WellFramedPrefix(Joined(chunks[..i]), chunks[i]);
    } else {
      assert chunks[..i] == chunks;
    }
  }

  lemma NextRead(chunks: seq<seq<Byte>>, i: nat, handlers: set<nat>)
    requires i < |chunks| && WellFramed(Joined(chunks))
    ensures var now := LeftAfter(chunks, i) + chunks[i];
            && WellFramed(now)
            && LeftAfter(chunks, i + 1) == Rest(now)
            && HandledAfter(chunks, i + 1, handlers)
               == HandledAfter(chunks, i, handlers) + Handled(Frames(now), handlers)
  {
    var before := chunks[..i];
    JoinedPrefix(chunks, i + 1);
    assert chunks[..i + 1][..i] == before;
    WellFramedPrefix(Joined(before), chunks[i]);
    CutsDoNotMatter(before);
    HandledConcat(Received(before).0, Frames(Received(before).1 + chunks[i]), handlers);
  }

  /** One packet of the front of a stream, and its dispatch. */
  lemma TakeOne(s: seq<Byte>, done: seq<Frame>, handlers: set<nat>)
    requires Complete(s) && WellFramed(s)
    ensures var frame, after := Frame(Id(s), s[HEADER_SIZE..Size(s)]), s[Size(s)..];
            && Frames(s) == [frame] + Frames(after) && Rest(s) == Rest(after) && WellFramed(after)
            && done + Frames(s) == done + [frame] + Frames(after)
            && Handled(done + [frame], handlers)
               == Handled(done, handlers) + if frame.id in handlers then [frame] else []
  {
    var frame := Frame(Id(s), s[HEADER_SIZE..Size(s)]);
    assert (done + [frame])[..|done|] == done;
  }

  /** The loop that writes the packets, into a buffer of zeros. */
  method WritePackets(payloads: seq<seq<Byte>>, totalSize: nat) returns (sendBuffer: array<Byte>)
    requires totalSize == TotalSize(payloads)
    ensures |Packets(payloads)| <= TotalSize(payloads)
    ensures fresh(sendBuffer) && sendBuffer[..] == Encoded(payloads)
  {
    PacketsFit(payloads);
    sendBuffer := new Byte[totalSize](_ => 0);
    var writePos := 0;
    for i := 0 to |payloads|
      invariant writePos == |Packets(payloads[..i])| <= totalSize
      invariant sendBuffer[..writePos] == Packets(payloads[..i])
      invariant forall k | writePos <= k < totalSize :: sendBuffer[k] == 0
    {
      assert payloads[..i + 1][..i] == payloads[..i];
      PacketsOfPrefix(payloads, i + 1);
      writePos := WritePacket(sendBuffer, writePos, payloads[i]);
    }
    assert payloads[..|payloads|] == payloads;
  }

  method WritePacket(a: array<Byte>, at: nat, payload: seq<Byte>) returns (next: nat)
    requires at + |Packet(payload)| <= a.Length
    modifies a
    ensures next == at + |Packet(payload)| && a[..next] == old(a[..at]) + Packet(payload)
    ensures forall k | next <= k < a.Length :: a[k] == old(a[k])
  {
    var payloadSize := |payload| % 0x1_0000;
    var packetSize := (payloadSize + HEADER_SIZE) % 0x1_0000;
    next := WriteBytes(a, at, U16Bytes(packetSize));
    next := WriteBytes(a, next, U16Bytes(S_CHAT));
    next := WriteBytes(a, next, payload[..payloadSize]);
  }

  lemma {:induction false} PacketsOfPrefix(payloads: seq<seq<Byte>>, i: nat)
    requires i <= |payloads|
    ensures |Packets(payloads[..i])| <= TotalSize(payloads[..i]) <= TotalSize(payloads)
    decreases |payloads| - i
  {
    PacketsFit(payloads[..i]);
    if i < |payloads| {
      PacketsOfPrefix(payloads, i + 1);
      assert payloads[..i + 1][..i] == payloads[..i];
    } else {
      assert payloads[..i] == payloads;
    }
  }

  /** memcpy of bytes to a position, which then moves on. */
  method WriteBytes(a: array<Byte>, at: nat, bytes: seq<Byte>) returns (next: nat)
    requires at + |bytes| <= a.Length
    modifies a
    ensures next == at + |bytes| && a[..next] == old(a[..at]) + bytes
    ensures forall k | next <= k < a.Length :: a[k] == old(a[k])
  {
    forall i | 0 <= i < |bytes| {
      a[at + i] := bytes[i];
    }
    next := at + |bytes|;
  }
}
