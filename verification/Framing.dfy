/**
 The frames on the wire: a header of two little-endian 16-bit numbers, the size of the whole frame
 and the packet id, and then the payload.
 */
module Framing {

  type Byte = b: int | 0 <= b < 256 witness 0

  const HEADER_SIZE := 4
  const BUFFER_SIZE := 40960
  const S_CHAT := 2

  datatype Frame = Frame(id: nat, payload: seq<Byte>)

  function U16(s: seq<Byte>, at: nat): (n: nat)
    requires at + 2 <= |s|
    ensures n < 0x1_0000
  {
    var lo: int, hi: int := s[at], s[at + 1];
    lo + 256 * hi
  }

  function U16Bytes(n: nat): seq<Byte>
    requires n < 0x1_0000
  {
    [n % 256, n / 256]
  }

  function Size(s: seq<Byte>): nat
    requires |s| >= HEADER_SIZE
  {
    U16(s, 0)
  }

  function Id(s: seq<Byte>): nat
    requires |s| >= HEADER_SIZE
  {
    U16(s, 2)
  }

  /** A whole frame is there, and its size covers at least its header. */
  predicate Complete(s: seq<Byte>) { |s| >= HEADER_SIZE && HEADER_SIZE <= Size(s) <= |s| }

  /** The complete frames at the front of a stream. */
  function Frames(s: seq<Byte>): seq<Frame> {
    if !Complete(s) then [] else [Frame(Id(s), s[HEADER_SIZE..Size(s)])] + Frames(s[Size(s)..])
  }

  /** What is left of a stream after them. */
  function Rest(s: seq<Byte>): seq<Byte> {
    if !Complete(s) then s else Rest(s[Size(s)..])
  }

  /** Every header that has come gives a size that covers it, and no complete frame has the id that
      the handler table has no slot for. */
  predicate WellFramed(s: seq<Byte>) {
    |s| >= HEADER_SIZE ==> Size(s) >= HEADER_SIZE && (Size(s) <= |s| ==> Id(s) != 0xFFFF && WellFramed(s[Size(s)..]))
  }

  // ----- Cutting a stream -----------------------------------------------------------------------

  /** Frames that are complete stay so when more bytes come. */
  lemma {:induction false} FramesOfMore(a: seq<Byte>, b: seq<Byte>)
    requires WellFramed(a)
    ensures Frames(a + b) == Frames(a) + Frames(Rest(a) + b)
    ensures Rest(a + b) == Rest(Rest(a) + b)
    decreases |a|
  {
    if Complete(a) {
      assert Size(a + b) == Size(a) && Id(a + b) == Id(a);
      assert (a + b)[Size(a)..] == a[Size(a)..] + b;
      assert (a + b)[HEADER_SIZE..Size(a)] == a[HEADER_SIZE..Size(a)];
      FramesOfMore(a[Size(a)..], b);
    }
  }

  lemma {:induction false} WellFramedPrefix(a: seq<Byte>, b: seq<Byte>)
    requires WellFramed(a + b)
    ensures WellFramed(a) && WellFramed(Rest(a) + b)
    decreases |a|
  {
    if |a| >= HEADER_SIZE {
      assert Size(a + b) == Size(a) && Id(a + b) == Id(a);
      if Size(a) <= |a| {
        assert (a + b)[Size(a)..] == a[Size(a)..] + b;
        WellFramedPrefix(a[Size(a)..], b);
      }
    }
  }

  /** What a session does with the reads it gets: it keeps what is left, adds the read and takes out
      the complete frames. */
  function Received(chunks: seq<seq<Byte>>): (seq<Frame>, seq<Byte>) {
    if |chunks| == 0 then ([], [])
    else
      var (frames, rest) := Received(chunks[..|chunks| - 1]);
      var now := rest + chunks[|chunks| - 1];
      (frames + Frames(now), Rest(now))
  }

  function Joined(chunks: seq<seq<Byte>>): seq<Byte> {
    if |chunks| == 0 then [] else Joined(chunks[..|chunks| - 1]) + chunks[|chunks| - 1]
  }

  /** The frames taken out, and the bytes kept, do not depend on how the stream is cut. */
  lemma {:induction false} CutsDoNotMatter(chunks: seq<seq<Byte>>)
    requires WellFramed(Joined(chunks))
    ensures Received(chunks) == (Frames(Joined(chunks)), Rest(Joined(chunks)))
  {
    if |chunks| > 0 {
      var before, last := chunks[..|chunks| - 1], chunks[|chunks| - 1];
      WellFramedPrefix(Joined(before), last);
      CutsDoNotMatter(before);
      FramesOfMore(Joined(before), last);
    }
  }

  // ----- Room in the buffer ---------------------------------------------------------------------

  /** After taking out the frames, a buffer that was not overfull has no room left exactly when it is
      full and starts with a frame larger than the whole buffer. */
  lemma {:induction false} RoomExactly(s: seq<Byte>)
    requires WellFramed(s) && |s| <= BUFFER_SIZE
    ensures |Rest(s)| == BUFFER_SIZE <==> |s| == BUFFER_SIZE && Size(s) > BUFFER_SIZE
    decreases |s|
  {
    if Complete(s) {
      RoomExactly(s[Size(s)..]);
    }
  }

  /** All headers that have come announce frames that fit the buffer. */
  predicate AllFit(s: seq<Byte>) {
    |s| >= HEADER_SIZE ==> Size(s) <= BUFFER_SIZE && (HEADER_SIZE <= Size(s) <= |s| ==> AllFit(s[Size(s)..]))
  }

  /** Then there is always room for one more byte: the session neither overflows nor stalls. */
  lemma {:induction false} AlwaysRoom(chunks: seq<seq<Byte>>)
    requires WellFramed(Joined(chunks)) && AllFit(Joined(chunks))
    ensures |Received(chunks).1| < BUFFER_SIZE
  {
    CutsDoNotMatter(chunks);
    RestFits(Joined(chunks));
  }

  lemma {:induction false} RestFits(s: seq<Byte>)
    requires WellFramed(s) && AllFit(s)
    ensures |Rest(s)| < BUFFER_SIZE
    decreases |s|
  {
    if Complete(s) {
      RestFits(s[Size(s)..]);
    }
  }

  // ----- Writing frames -------------------------------------------------------------------------

  /** One packet as Send writes it: both sizes are cut to 16 bits. */
  function Packet(payload: seq<Byte>): seq<Byte> {
    var payloadSize := |payload| % 0x1_0000;
    U16Bytes((payloadSize + HEADER_SIZE) % 0x1_0000) + U16Bytes(S_CHAT) + payload[..payloadSize]
  }

  function Packets(payloads: seq<seq<Byte>>): seq<Byte> {
    if |payloads| == 0 then [] else Packets(payloads[..|payloads| - 1]) + Packet(payloads[|payloads| - 1])
  }

  function TotalSize(payloads: seq<seq<Byte>>): nat {
    if |payloads| == 0 then 0 else TotalSize(payloads[..|payloads| - 1]) + (|payloads[|payloads| - 1]| + HEADER_SIZE)
  }

  function Zeros(n: nat): seq<Byte> { seq(n, _ => 0) }

  /** What Send puts on the wire: the packets, and zeros up to the size it reckoned. */
  function Encoded(payloads: seq<seq<Byte>>): seq<Byte>
    requires |Packets(payloads)| <= TotalSize(payloads)
  {
    Packets(payloads) + Zeros(TotalSize(payloads) - |Packets(payloads)|)
  }

  function AsFrames(payloads: seq<seq<Byte>>): seq<Frame> {
    seq(|payloads|, i requires 0 <= i < |payloads| => Frame(S_CHAT, payloads[i]))
  }

  /** The payload's size and the frame's both fit 16 bits. */
  predicate FitsFrame(payload: seq<Byte>) { |payload| <= 65531 }

  lemma {:induction false} PacketsFit(payloads: seq<seq<Byte>>)
    ensures |Packets(payloads)| <= TotalSize(payloads)
    ensures (forall p | p in payloads :: FitsFrame(p)) ==> |Packets(payloads)| == TotalSize(payloads)
  {
    if |payloads| > 0 {
      PacketsFit(payloads[..|payloads| - 1]);
      assert payloads[|payloads| - 1] in payloads;
    }
  }

  lemma U16RoundTrip(n: nat, s: seq<Byte>, at: nat)
    requires n < 0x1_0000 && at + 2 <= |s| && s[at..at + 2] == U16Bytes(n)
    ensures U16(s, at) == n
  {
    assert s[at] == s[at..at + 2][0] && s[at + 1] == s[at..at + 2][1];
  }

  /** The header of a packet, read back. */
  lemma PacketHeader(payload: seq<Byte>, more: seq<Byte>)
    ensures var s, payloadSize := Packet(payload) + more, |payload| % 0x1_0000;
            && |s| >= HEADER_SIZE
            && Size(s) == (payloadSize + HEADER_SIZE) % 0x1_0000 && Id(s) == S_CHAT
            && |Packet(payload)| == payloadSize + HEADER_SIZE
            && s[HEADER_SIZE..HEADER_SIZE + payloadSize] == payload[..payloadSize]
            && s[HEADER_SIZE + payloadSize..] == more
  {
    var s, payloadSize := Packet(payload) + more, |payload| % 0x1_0000;
    var size := (payloadSize + HEADER_SIZE) % 0x1_0000;
    assert s == U16Bytes(size) + U16Bytes(S_CHAT) + payload[..payloadSize] + more;
    U16RoundTrip(size, s, 0);
    U16RoundTrip(S_CHAT, s, 2);
  }

  /** The bytes of a packet: its size with the header, low byte first, then 2 and 0, then the payload. */
  lemma PacketIs(payload: seq<Byte>)
    requires |payload| <= 65531
    ensures Packet(payload) == [(|payload| + 4) % 256, (|payload| + 4) / 256, 2, 0] + payload
  {
    assert payload[..|payload|] == payload;
  }

  /** The bytes of a frame. */
  lemma FrameIs(lo: Byte, hi: Byte, idLo: Byte, idHi: Byte, payload: seq<Byte>, more: seq<Byte>)
    requires lo + 256 * hi == |payload| + 4
    ensures var s := [lo, hi, idLo, idHi] + payload + more;
            && Frames(s) == [Frame(idLo + 256 * idHi, payload)] + Frames(more)
            && Rest(s) == Rest(more)
  {
    var s := [lo, hi, idLo, idHi] + payload + more;
    assert Size(s) == lo + 256 * hi && Id(s) == idLo + 256 * idHi;
    assert s[4..Size(s)] == payload && s[Size(s)..] == more;
  }

  /** Nothing is taken out of fewer than four bytes, nor before the whole frame is there. */
  lemma UnfinishedFrame(s: seq<Byte>)
    ensures |s| < 4 || s[0] + 256 * s[1] > |s| ==> Frames(s) == [] && Rest(s) == s
  {
  }

  /** Reading the packets from the front. */
  function PacketsFrom(payloads: seq<seq<Byte>>): seq<Byte> {
    if |payloads| == 0 then [] else Packet(payloads[0]) + PacketsFrom(payloads[1..])
  }

  lemma {:induction false} PacketsFromFront(payloads: seq<seq<Byte>>)
    ensures Packets(payloads) == PacketsFrom(payloads)
  {
    if |payloads| > 0 {
      PacketsFromFront(payloads[..|payloads| - 1]);
      PacketsFromBack(payloads);
    }
  }

  lemma {:induction false} PacketsFromBack(payloads: seq<seq<Byte>>)
    requires |payloads| > 0
    ensures var n := |payloads| - 1; PacketsFrom(payloads) == PacketsFrom(payloads[..n]) + Packet(payloads[n])
  {
    var n := |payloads| - 1;
    if n == 0 {
      assert payloads[1..] == [] && payloads[..0] == [];
      assert PacketsFrom(payloads[1..]) == [];
    } else {
      PacketsFromBack(payloads[1..]);
      assert payloads[1..][..n - 1] == payloads[..n][1..];
    }
  }

  lemma AsFramesFirst(payloads: seq<seq<Byte>>)
    requires |payloads| > 0
    ensures AsFrames(payloads) == [Frame(S_CHAT, payloads[0])] + AsFrames(payloads[1..])
  {
  }

  lemma FirstReadBack(payload: seq<Byte>, more: seq<Byte>)
    requires FitsFrame(payload)
    ensures Frames(Packet(payload) + more) == [Frame(S_CHAT, payload)] + Frames(more)
    ensures Rest(Packet(payload) + more) == Rest(more)
  {
    var s, size := Packet(payload) + more, HEADER_SIZE + |payload|;
    PacketHeader(payload, more);
    assert Size(s) == size && Id(s) == S_CHAT && Complete(s);
    assert s[HEADER_SIZE..size] == payload[..|payload|] == payload;
    assert s[size..] == more;
    assert Frames(s) == [Frame(Id(s), s[HEADER_SIZE..size])] + Frames(s[size..]);
    assert Rest(s) == Rest(s[size..]);
  }

  /** Payloads that fit are read back in order, and whatever follows them comes after. */
  lemma {:induction false} ReadBack(payloads: seq<seq<Byte>>, more: seq<Byte>)
    requires forall p | p in payloads :: FitsFrame(p)
    ensures Frames(PacketsFrom(payloads) + more) == AsFrames(payloads) + Frames(more)
    ensures Rest(PacketsFrom(payloads) + more) == Rest(more)
  {
    if |payloads| == 0 {
      assert PacketsFrom(payloads) + more == more;
    } else {
      var p, tail := payloads[0], payloads[1..];
      var after := PacketsFrom(tail) + more;
      PacketBefore(p, tail, more);
      assert FitsFrame(p);
      assert payloads == [p] + tail;
      FirstReadBack(p, after);
      ReadBack(tail, more);
      FrameBefore(Frame(S_CHAT, p), AsFrames(tail), Frames(more));
      AsFramesFirst(payloads);
    }
  }

  lemma PacketBefore(p: seq<Byte>, tail: seq<seq<Byte>>, more: seq<Byte>)
    ensures PacketsFrom([p] + tail) + more == Packet(p) + (PacketsFrom(tail) + more)
  {
    assert ([p] + tail)[1..] == tail;
  }

  lemma FrameBefore(f: Frame, fs: seq<Frame>, more: seq<Frame>)
    ensures [f] + (fs + more) == ([f] + fs) + more
  {
  }

  /** The first payload that does not fit is not read back. */
  lemma TooLargeIsLost(payload: seq<Byte>, more: seq<Byte>)
    requires !FitsFrame(payload)
    ensures var frames := Frames(Packet(payload) + more);
            |frames| > 0 ==> frames[0] != Frame(S_CHAT, payload)
  {
    PacketHeader(payload, more);
  }

  lemma {:induction false} FirstTooLarge(payloads: seq<seq<Byte>>) returns (k: nat)
    requires exists p | p in payloads :: !FitsFrame(p)
    ensures k < |payloads| && !FitsFrame(payloads[k]) && forall p | p in payloads[..k] :: FitsFrame(p)
  {
    if !FitsFrame(payloads[0]) {
      k := 0;
    } else {
      assert payloads == [payloads[0]] + payloads[1..];
      k := FirstTooLarge(payloads[1..]);
      k := k + 1;
      assert payloads[..k] == [payloads[0]] + payloads[1..][..k - 1];
    }
  }

  lemma {:induction false} PacketsFromSplit(payloads: seq<seq<Byte>>, k: nat)
    requires k <= |payloads|
    ensures PacketsFrom(payloads) == PacketsFrom(payloads[..k]) + PacketsFrom(payloads[k..])
  {
    if k > 0 {
      PacketsFromSplit(payloads[1..], k - 1);
      assert payloads[..k][1..] == payloads[1..][..k - 1];
      assert payloads[1..][k - 1..] == payloads[k..];
    }
  }

  /** What Send writes is read back, payload by payload, exactly when every payload fits. */
  lemma SendReadsBackExactly(payloads: seq<seq<Byte>>)
    ensures |Packets(payloads)| <= TotalSize(payloads)
    ensures Frames(Encoded(payloads)) == AsFrames(payloads) <==> forall p | p in payloads :: FitsFrame(p)
    ensures (forall p | p in payloads :: FitsFrame(p)) ==>
              Rest(Encoded(payloads)) == [] && |Encoded(payloads)| == |Packets(payloads)|
  {
    PacketsFit(payloads);
    PacketsFromFront(payloads);
    var zeros := Zeros(TotalSize(payloads) - |Packets(payloads)|);
    if forall p | p in payloads :: FitsFrame(p) {
      ReadBack(payloads, []);
      assert Encoded(payloads) == PacketsFrom(payloads) + [];
      assert Frames([]) == [] && Rest([]) == [];
      assert AsFrames(payloads) + [] == AsFrames(payloads);
    } else {
      var k := FirstTooLarge(payloads);
      PacketsFromSplit(payloads, k);
      var after := PacketsFrom(payloads[k + 1..]) + zeros;
      assert payloads[k..][1..] == payloads[k + 1..];
      assert Encoded(payloads) == PacketsFrom(payloads[..k]) + (Packet(payloads[k]) + after);
      ReadBack(payloads[..k], Packet(payloads[k]) + after);
      TooLargeIsLost(payloads[k], after);
      var frames := Frames(Packet(payloads[k]) + after);
      assert |AsFrames(payloads[..k])| == k;
      if |frames| > 0 {
        assert (AsFrames(payloads[..k]) + frames)[k] == frames[0];
      }
    }
  }
}
