/**
 The receive buffer of a session: bytes between a read and a write position, moved to the front after
 each packet.
 */
module RecvBuffers {
  import opened Framing

  class RecvBuffer {
    const buffer: array<Byte>
    var readPos: nat
    var writePos: nat

    ghost predicate Valid()
      reads this
    {
      buffer.Length == BUFFER_SIZE && readPos <= writePos <= BUFFER_SIZE
    }

    ghost function Contents(): seq<Byte>
      reads this, buffer
      requires Valid()
    {
      buffer[readPos..writePos]
    }

    constructor ()
      ensures Valid() && Contents() == [] && readPos == 0 && fresh(buffer) && buffer.Length == 40960
    {
      buffer := new Byte[BUFFER_SIZE](_ => 0);
      readPos, writePos := 0, 0;
    }

    /** The write position moves on by n, unless that is beyond the end of the buffer. */
    method SetWritePos(n: nat)
      requires Valid()
      modifies this`writePos
      ensures Valid()
      ensures writePos == if old(writePos) + n > BUFFER_SIZE then old(writePos) else old(writePos) + n
    {
      if writePos + n > BUFFER_SIZE {
        return;
      }
      writePos := writePos + n;
    }

    /** The first n bytes are taken out, unless there are fewer. */
    method SetReadPos(n: nat)
      requires Valid()
      modifies this`readPos
      ensures Valid()
      ensures Contents() == if n > |old(Contents())| then old(Contents()) else old(Contents())[n..]
    {
      if readPos + n > writePos {
        return;
      }
      readPos := readPos + n;
    }

    method GetWritableSize() returns (n: nat)
      requires Valid()
      ensures n == BUFFER_SIZE - writePos
    {
      n := BUFFER_SIZE - writePos;
    }

    method GetReadableSize() returns (n: nat)
      requires Valid()
      ensures n == |Contents()|
    {
      n := writePos - readPos;
    }

    /** The bytes left are moved to the front. */
    method Clear()
      requires Valid()
      modifies this`readPos, this`writePos, buffer
      ensures Valid() && readPos == 0
      ensures Contents() == old(Contents())
    {
      if readPos == writePos {
        readPos, writePos := 0, 0;
        return;
      }
      var remained := writePos - readPos;
      forall i | 0 <= i < remained {
        buffer[i] := buffer[readPos + i];
      }
      readPos := 0;
      writePos := remained;
    }

    /** A read of the socket into the writable space, and the step that follows it. */
    method Append(bytes: seq<Byte>)
      requires Valid() && |bytes| <= BUFFER_SIZE - writePos
      modifies this`writePos, buffer
      ensures Valid() && readPos == old(readPos) && Contents() == old(Contents()) + bytes
    {
      forall i | 0 <= i < |bytes| {
        buffer[writePos + i] := bytes[i];
      }
      SetWritePos(|bytes|);
    }
  }
}
