/**
 The generated code of the S_Chat message: a string in field 1 and an unsigned 32-bit number in
 field 2, each written only when it is not empty or zero.
 */
module ChatCodec {
  import opened Options
  import opened Framing
  import opened Varint

  const MESSAGE_TAG := 10
  const SENDER_TAG := 16

  type U32 = n: nat | n < TWO32

  datatype Chat = Chat(message: seq<Byte>, senderId: U32)

  const EMPTY := Chat([], 0)

  /** The result of a parse: the message, a failure, or a field that S_Chat does not know. */
  datatype Result = Ok(chat: Chat) | Malformed | UnknownField

  // ----- Writing --------------------------------------------------------------------------------

  function Serialize(c: Chat): seq<Byte> {
    (if |c.message| > 0 then [MESSAGE_TAG] + Encode(|c.message|) + c.message else [])
    + (if c.senderId != 0 then [SENDER_TAG] + Encode(c.senderId) else [])
  }

  /** WriteStringMaybeAliased: a short string is written at once while there is room, and any other one
      by WriteLengthDelim. */
  method WriteStringMaybeAliased(num: nat, s: seq<Byte>, room: bool) returns (bytes: seq<Byte>)
    requires |s| < TWO32
    ensures bytes == Encode(8 * num + 2) + Encode(|s|) + s
  {
    bytes := UnsafeVarint(8 * num + 2);
    if |s| >= 128 || !room {
      var size := UnsafeWriteSize(|s|);
      bytes := bytes + size + s;
    } else {
      bytes := bytes + [|s|] + s;
    }
  }

  /** _InternalSerialize. */
  method InternalSerialize(c: Chat, room: bool) returns (target: seq<Byte>)
    requires |c.message| < TWO32
    ensures target == Serialize(c)
  {
    target := [];
    EncodeLast(MESSAGE_TAG);
    EncodeLast(SENDER_TAG);
    if |c.message| > 0 {
      target := WriteStringMaybeAliased(1, c.message, room);
      assert target == [MESSAGE_TAG] + Encode(|c.message|) + c.message;
    }
    if c.senderId != 0 {
      var tag := UnsafeVarint(SENDER_TAG);
      var id := UnsafeVarint(c.senderId);
      target := target + (tag + id);
    }
  }

  /** ByteSizeLong. */
  method ByteSizeLong(c: Chat) returns (totalSize: nat)
    requires |c.message| < TWO32
    ensures totalSize == |Serialize(c)|
  {
    totalSize := 0;
    if |c.message| > 0 {
      SizeIsLength(|c.message|);
      totalSize := totalSize + 1 + (|c.message| + VarintSize32(|c.message|));
    }
    if c.senderId != 0 {
      SizeIsLength(c.senderId);
      totalSize := totalSize + VarintSize32PlusOne(c.senderId);
    }
  }

  /** MergeImpl. */
  function Merge(to: Chat, from: Chat): Chat {
    Chat(if |from.message| > 0 then from.message else to.message,
         if from.senderId != 0 then from.senderId else to.senderId)
  }

  // ----- Parsing --------------------------------------------------------------------------------

  /** InlineGreedyStringParser into the message: the string at the front of `s`, after its tag. */
  function StringField(c: Chat, s: seq<Byte>): (r: (Result, nat))
    ensures r.0.Ok? ==> r.1 <= |s|
  {
    match DecodeSize(s)
    case None => (Malformed, 0)
    case Some((size, k)) =>
      if k + size <= |s| then (Ok(c.(message := s[k..k + size])), k + size) else (Malformed, 0)
  }

  /** ReadVarint32 into the sender. */
  function SenderField(c: Chat, s: seq<Byte>): (r: (Result, nat))
    ensures r.0.Ok? ==> r.1 <= |s|
  {
    match Decode32(s, 10)
    case None => (Malformed, 0)
    case Some((value, k)) => (Ok(c.(senderId := value)), k)
  }

  /** One field with its tag at the front of `s`: what becomes of the message, and how many bytes it takes. */
  function ParseField(c: Chat, s: seq<Byte>): (r: (Result, nat))
    ensures r.0.Ok? ==> 0 < r.1 <= |s|
  {
    match Decode32(s, 5)
    case None => (Malformed, 0)
    case Some((tag, n)) =>
      if tag == MESSAGE_TAG then (StringField(c, s[n..]).0, n + StringField(c, s[n..]).1)
      else if tag == SENDER_TAG then (SenderField(c, s[n..]).0, n + SenderField(c, s[n..]).1)
      else if tag == 0 || tag % 8 == 4 then (Malformed, 0)
      else (UnknownField, 0)
  }

  function Parse(c: Chat, s: seq<Byte>): Result
    decreases |s|
  {
    if |s| == 0 then Ok(c)
    else
      var (r, n) := ParseField(c, s);
      if r.Ok? then Parse(r.chat, s[n..]) else r
  }

  method ReadString(c: Chat, s: seq<Byte>) returns (r: Result, length: nat)
    ensures (r, length) == StringField(c, s)
  {
    var size := ReadSize(s);
    if size == None || size.value.1 + size.value.0 > |s| {
      return Malformed, 0;
    }
    var k := size.value.1;
    return Ok(c.(message := s[k..k + size.value.0])), k + size.value.0;
  }

  method ReadVarint32(c: Chat, s: seq<Byte>) returns (r: Result, length: nat)
    ensures (r, length) == SenderField(c, s)
  {
    var value := VarintParse(s);
    if value == None {
      return Malformed, 0;
    }
    return Ok(c.(senderId := value.value.0)), value.value.1;
  }

  /** The body of the parse loop. */
  method ReadField(c: Chat, s: seq<Byte>) returns (r: Result, length: nat)
    ensures r == ParseField(c, s).0 && (r.Ok? ==> length == ParseField(c, s).1)
  {
    var read := ReadTag(s);
    if read == None {
      return Malformed, 0;
    }
    var (tag, n) := read.value;
    if tag == MESSAGE_TAG {
      r, length := ReadString(c, s[n..]);
      length := n + length;
    } else if tag == SENDER_TAG {
      r, length := ReadVarint32(c, s[n..]);
      length := n + length;
    } else if tag == 0 || tag % 8 == 4 {
      return Malformed, 0;
    } else {
      return UnknownField, 0;
    }
  }

  /** _InternalParse on a message that may have fields set. */
  method InternalParse(c: Chat, s: seq<Byte>) returns (r: Result)
    ensures r == Parse(c, s)
  {
    var chat, ptr := c, s;
    while |ptr| > 0
      invariant Parse(c, s) == Parse(chat, ptr)
      decreases |ptr|
    {
      var n;
      r, n := ReadField(chat, ptr);
      if !r.Ok? {
        return;
      }
      chat := r.chat;
      ptr := ptr[n..];
    }
    return Ok(chat);
  }

  // ----- The bytes on the wire ------------------------------------------------------------------

  /** What is written: 10, the size and the bytes of the message; then 16 and the sender. */
  lemma WireForm(message: seq<Byte>, id: U32)
    ensures Serialize(Chat([], 0)) == []
    ensures message != [] ==> Serialize(Chat(message, 0)) == [10] + Encode(|message|) + message
    ensures id != 0 ==> Serialize(Chat([], id)) == [16] + Encode(id)
    ensures message != [] && id != 0 ==>
            Serialize(Chat(message, id)) == [10] + Encode(|message|) + message + ([16] + Encode(id))
    ensures Serialize(Chat([104, 105], 300)) == [10, 2, 104, 105, 16, 172, 2]
  {
    EncodeExamples();
    assert Encode(2) == [2];
  }

  lemma FieldAfterTag(c: Chat, tag: Byte, after: seq<Byte>, r: Result, n: nat)
    requires ParseField(c, [tag] + after) == (r, 1 + n)
    ensures r.Ok? ==> n <= |after|
    ensures Parse(c, [tag] + after) == if r.Ok? then Parse(r.chat, after[n..]) else r
  {
    if r.Ok? {
      assert ([tag] + after)[1 + n..] == after[n..];
    }
  }

  lemma FieldsAfterTags(c: Chat, after: seq<Byte>)
    ensures ParseField(c, [10] + after) == (StringField(c, after).0, 1 + StringField(c, after).1)
    ensures ParseField(c, [16] + after) == (SenderField(c, after).0, 1 + SenderField(c, after).1)
  {
    TagField(10, after);
    TagField(16, after);
  }

  /** What is read after a 10, whatever bytes come: a size and that many bytes of the message, */
  lemma MessageTag(c: Chat, after: seq<Byte>, size: nat, k: nat)
    requires DecodeSize(after) == Some((size, k))
    ensures Parse(c, [10] + after) ==
            if k + size > |after| then Malformed else Parse(c.(message := after[k..k + size]), after[k + size..])
  {
    FieldsAfterTags(c, after);
    if k + size > |after| {
      FieldAfterTag(c, 10, after, Malformed, 0);
    } else {
      FieldAfterTag(c, 10, after, Ok(c.(message := after[k..k + size])), k + size);
    }
  }

  /** or nothing, if there is no size. */
  lemma NoSize(c: Chat, after: seq<Byte>)
    requires DecodeSize(after) == None
    ensures Parse(c, [10] + after) == Malformed
  {
    FieldsAfterTags(c, after);
    FieldAfterTag(c, 10, after, Malformed, 0);
  }

  /** What is read after a 16. */
  lemma SenderTag(c: Chat, after: seq<Byte>)
    ensures Parse(c, [16] + after) ==
            if Decode32(after, 10).None? then Malformed
            else
              var (id, n) := Decode32(after, 10).value;
              Parse(c.(senderId := id), after[n..])
  {
    FieldsAfterTags(c, after);
    FieldAfterTag(c, 16, after, SenderField(c, after).0, SenderField(c, after).1);
  }

  /** Any other tag of one byte ends the parse: a zero or the end of a group, or an unknown field. */
  lemma OtherTags(c: Chat, tag: nat, after: seq<Byte>)
    requires tag < 128 && tag != 10 && tag != 16
    ensures Parse(c, [tag] + after) == if tag == 0 || tag % 8 == 4 then Malformed else UnknownField
  {
    TagField(tag, after);
  }

  /** A tag of up to five bytes is read as the same number in one byte, or is unknown. */
  lemma AnyTag(c: Chat, s: seq<Byte>, tag: nat, n: nat)
    requires Decode32(s, 5) == Some((tag, n))
    ensures tag < 128 ==> Parse(c, s) == Parse(c, [tag] + s[n..])
    ensures tag >= 128 ==> Parse(c, s) == if tag % 8 == 4 then Malformed else UnknownField
  {
    if tag < 128 {
      var after := s[n..];
      var (r, k) := ParseField(c, s);
      TagField(tag, after);
      if r.Ok? {
        assert s[k..] == after[k - n..];
        FieldAfterTag(c, tag, after, r, k - n);
      }
    }
  }

  /** Five bytes that all have the flag are no tag. */
  lemma TagTooLong(c: Chat, s: seq<Byte>)
    requires |s| >= 5 && forall j | 0 <= j < 5 :: Continues(s, j)
    ensures Parse(c, s) == Malformed
  {
    DecodeNone(s, 5);
  }

  // ----- Round trips ----------------------------------------------------------------------------

  /** A message that ReadSize takes the size of. */
  predicate Sendable(c: Chat) { |c.message| <= INT_MAX - SLOP_BYTES }

  /** A tag of one byte. */
  lemma TagField(tag: nat, more: seq<Byte>)
    requires tag < 128
    ensures Decode32([tag] + more, 5) == Some((tag, 1)) && ([tag] + more)[1..] == more
  {
  }

  lemma ParseMessage(c: Chat, message: seq<Byte>, more: seq<Byte>)
    requires 0 < |message| <= INT_MAX - SLOP_BYTES
    ensures Parse(c, [MESSAGE_TAG] + Encode(|message|) + message + more) == Parse(c.(message := message), more)
  {
    var after := Encode(|message|) + (message + more);
    var s := [MESSAGE_TAG] + after;
    var k := |Encode(|message|)|;
    assert [MESSAGE_TAG] + Encode(|message|) + message + more == s;
    TagField(MESSAGE_TAG, after);
    DecodeSizeExactly(|message|, message + more);
    assert after[k..k + |message|] == message;
    assert StringField(c, after) == (Ok(c.(message := message)), k + |message|);
    assert s[1 + k + |message|..] == more;
  }

  lemma SenderOfEncoded(c: Chat, id: U32, more: seq<Byte>)
    ensures SenderField(c, Encode(id) + more) == (Ok(c.(senderId := id)), |Encode(id)|)
  {
    SizeIsLength(id);
    Decode32Encode(id, more, 10);
  }

  lemma ParseSender(c: Chat, id: U32, more: seq<Byte>)
    ensures Parse(c, [SENDER_TAG] + Encode(id) + more) == Parse(c.(senderId := id), more)
  {
    var after, n := Encode(id) + more, 1 + |Encode(id)|;
    var s := [SENDER_TAG] + after;
    assert [SENDER_TAG] + Encode(id) + more == s && s[n..] == more;
    TagField(SENDER_TAG, after);
    SenderOfEncoded(c, id, more);
    assert ParseField(c, s) == (Ok(c.(senderId := id)), n);
  }

  /** Parsing a written message into another is merging it, whatever follows. */
  lemma ParseSerialized(a: Chat, b: Chat, more: seq<Byte>)
    requires Sendable(b)
    ensures Parse(a, Serialize(b) + more) == Parse(Merge(a, b), more)
  {
    var first := if |b.message| > 0 then [MESSAGE_TAG] + Encode(|b.message|) + b.message else [];
    var second := if b.senderId != 0 then [SENDER_TAG] + Encode(b.senderId) else [];
    assert Serialize(b) + more == first + (second + more);
    var middle := a.(message := if |b.message| > 0 then b.message else a.message);
    if |b.message| > 0 {
      ParseMessage(a, b.message, second + more);
    } else {
      assert first + (second + more) == second + more;
    }
    if b.senderId != 0 {
      ParseSender(middle, b.senderId, more);
    } else {
      assert second + more == more;
    }
  }

  /** Parse is the inverse of serialize. */
  lemma RoundTrip(c: Chat)
    requires Sendable(c)
    ensures Parse(EMPTY, Serialize(c)) == Ok(c)
  {
    assert Serialize(c) + [] == Serialize(c);
    ParseSerialized(EMPTY, c, []);
  }

  /** Two messages written one after the other parse to the second merged into the first. */
  lemma ConcatenationMerges(a: Chat, b: Chat)
    requires Sendable(a) && Sendable(b)
    ensures Parse(EMPTY, Serialize(a) + Serialize(b)) == Ok(Merge(a, b))
  {
    ParseSerialized(EMPTY, a, Serialize(b));
    assert Serialize(b) + [] == Serialize(b);
    ParseSerialized(Merge(EMPTY, a), b, []);
  }

  // ----- Bytes that no serializer wrote ---------------------------------------------------------

  /** What the bytes last set each field to, if they set it. */
  function Last(s: seq<Byte>): (Option<seq<Byte>>, Option<U32>)
    decreases |s|
  {
    if |s| == 0 then (None, None)
    else
      var (r, n) := ParseField(EMPTY, s);
      if !r.Ok? then (None, None)
      else
        var (message, senderId) := Last(s[n..]);
        if SetsMessage(s) then (if message.Some? then message else Some(r.chat.message), senderId)
        else (message, if senderId.Some? then senderId else Some(r.chat.senderId))
  }

  predicate SetsMessage(s: seq<Byte>) {
    Decode32(s, 5).Some? && Decode32(s, 5).value.0 == MESSAGE_TAG
  }

  /** The message with the fields that were set. */
  function Updated(a: Chat, last: (Option<seq<Byte>>, Option<U32>)): Chat {
    Chat(if last.0.Some? then last.0.value else a.message, if last.1.Some? then last.1.value else a.senderId)
  }

  /** A field is parsed the same way whatever was there before. */
  lemma FieldOnto(a: Chat, s: seq<Byte>)
    ensures var (r, n), (r0, n0) := ParseField(a, s), ParseField(EMPTY, s);
            && n == n0 && r.Ok? == r0.Ok?
            && (!r.Ok? ==> r == r0)
            && (r.Ok? ==> r.chat == if SetsMessage(s) then a.(message := r0.chat.message)
                                    else a.(senderId := r0.chat.senderId))
  {
  }

  lemma {:induction false} ParseIsUpdate(a: Chat, s: seq<Byte>)
    ensures Parse(a, s).Ok? <==> Parse(EMPTY, s).Ok?
    ensures Parse(a, s).Ok? ==> Parse(a, s).chat == Updated(a, Last(s))
    decreases |s|
  {
    if |s| > 0 && ParseField(EMPTY, s).0.Ok? {
      var n := ParseField(EMPTY, s).1;
      FieldOnto(a, s);
      ParseIsUpdate(ParseField(a, s).0.chat, s[n..]);
      ParseIsUpdate(ParseField(EMPTY, s).0.chat, s[n..]);
    } else if |s| > 0 {
      FieldOnto(a, s);
    }
  }

  /** Parsing bytes into a message is merging what they parse to exactly when a field that they last
      set to its default, empty or zero, has the default in the message too. */
  lemma ParseMergesExactly(a: Chat, s: seq<Byte>)
    requires Parse(EMPTY, s).Ok?
    ensures Parse(a, s) == Ok(Merge(a, Parse(EMPTY, s).chat)) <==>
            && (Last(s).0 == Some([]) ==> a.message == [])
            && (Last(s).1 == Some(0) ==> a.senderId == 0)
  {
    ParseIsUpdate(a, s);
    ParseIsUpdate(EMPTY, s);
  }

  /** For instance, an explicit zero on the wire. */
  lemma ZeroOnTheWire(a: Chat)
    requires a.senderId != 0 && Sendable(a)
    ensures var zero: seq<Byte> := [SENDER_TAG, 0];
            && Parse(EMPTY, zero) == Ok(EMPTY)
            && Parse(EMPTY, Serialize(a) + zero) == Ok(a.(senderId := 0)) != Ok(Merge(a, EMPTY))
  {
    var zero: seq<Byte> := [SENDER_TAG, 0];
    assert zero == [SENDER_TAG] + Encode(0) + [];
    ParseSender(EMPTY, 0, []);
    ParseSender(a, 0, []);
    ParseSerialized(EMPTY, a, zero);
  }

  /** Parsing goes through the bytes once: what is parsed so far is all that the rest depends on. */
  lemma {:induction false} ParseInParts(c: Chat, s: seq<Byte>, more: seq<Byte>)
    requires Parse(c, s).Ok?
    ensures Parse(c, s + more) == Parse(Parse(c, s).chat, more)
    decreases |s|
  {
    if |s| == 0 {
      assert s + more == more;
    } else {
      var (r, n) := ParseField(c, s);
      FieldOfMore(c, s, more);
      assert (s + more)[n..] == s[n..] + more;
      ParseInParts(r.chat, s[n..], more);
    }
  }

  lemma {:induction false} DecodeOfMore(s: seq<Byte>, more: seq<Byte>, limit: nat)
    requires Decode(s, limit).Some?
    ensures Decode(s + more, limit) == Decode(s, limit)
  {
    if s[0] >= 128 {
      assert (s + more)[1..] == s[1..] + more;
      DecodeOfMore(s[1..], more, limit - 1);
    }
  }

  lemma FieldOfMore(c: Chat, s: seq<Byte>, more: seq<Byte>)
    requires ParseField(c, s).0.Ok?
    ensures ParseField(c, s + more) == ParseField(c, s)
  {
    DecodeOfMore(s, more, 5);
    var (tag, n) := Decode32(s, 5).value;
    assert (s + more)[n..] == s[n..] + more;
    if tag == MESSAGE_TAG {
      StringOfMore(c, s[n..], more);
    } else {
      DecodeOfMore(s[n..], more, 10);
    }
  }

  lemma StringOfMore(c: Chat, s: seq<Byte>, more: seq<Byte>)
    requires StringField(c, s).0.Ok?
    ensures StringField(c, s + more) == StringField(c, s)
  {
    DecodeOfMore(s, more, 5);
    var (size, k) := DecodeSize(s).value;
    assert (s + more)[k..k + size] == s[k..k + size];
  }

  // ----- From one side to the other -------------------------------------------------------------

  function Payloads(chats: seq<Chat>): seq<seq<Byte>> {
    seq(|chats|, i requires 0 <= i < |chats| => Serialize(chats[i]))
  }

  /** A batch of messages that fit their frames, written by Send, comes out of the frames of the other
      side as it was. */
  lemma ChatsTravel(chats: seq<Chat>, i: nat)
    requires i < |chats| && forall c | c in chats :: Sendable(c) && FitsFrame(Serialize(c))
    ensures |Packets(Payloads(chats))| <= TotalSize(Payloads(chats))
    ensures var frames := Frames(Encoded(Payloads(chats)));
            && |frames| == |chats| && frames[i].id == S_CHAT
            && Parse(EMPTY, frames[i].payload) == Ok(chats[i])
  {
    forall p | p in Payloads(chats) ensures FitsFrame(p) {
      var j :| 0 <= j < |chats| && Payloads(chats)[j] == p;
      assert chats[j] in chats;
    }
    SendReadsBackExactly(Payloads(chats));
    assert chats[i] in chats;
    RoundTrip(chats[i]);
  }
}
