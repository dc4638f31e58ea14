/**
 * NioDirectMessage: an NioMessage meant for direct (off-heap) buffers.  It
 * adds `useHeapMemory`, which chooses the kind of buffer a received payload
 * is read into, and puts that flag on the wire where NioMessage puts the
 * sender's own buffer kind.  The contents always go through the chunked
 * transfer loop.
 */
module NioDirectMessages {
  import opened JavaLang
  import opened Wire
  import opened Envelopes
  import opened ByteBuffers
  import NM = NioMessages

  datatype NioDirectMessage = NioDirectMessage(base: NM.NioMessage, useHeapMemory: bool)

  predicate Valid(m: NioDirectMessage) { NM.Valid(m.base) }

  /** `new NioDirectMessage(dest)`: no buffer, and the flag starts cleared so
      the first buffers are direct. */
  function New(env: Envelope): (r: NioDirectMessage)
    ensures Valid(r) && !r.useHeapMemory && !NM.HasPayload(r.base) && r.base.env == env
  {
    NioDirectMessage(NM.NioMessage(env, None), false)
  }

  function GetType(m: NioDirectMessage): MessageType { NioDirectMsg }

  /** `useHeapMemory(b)`: sets the flag and nothing else. */
  function UseHeapMemory(m: NioDirectMessage, b: bool): (r: NioDirectMessage)
    ensures r.useHeapMemory == b && r.base == m.base
  {
    m.(useHeapMemory := b)
  }

  /** `getContents()`: a fresh array with the bytes between position and
      limit; the buffer's own position does not move (the bytes come from a
      duplicate).  It needs a buffer: without one it is a
      NullPointerException. */
  function GetContents(m: NioDirectMessage): (r: Result<seq<byte>>)
    requires Valid(m)
    ensures m.base.buf.None? <==> r == Throws(NullPointer)
    ensures r.Ok? ==> |r.value| == NM.GetLength(m.base)
  {
    match m.base.buf
    case None => Throws(NullPointer)
    case Some(b) => Ok(Get(b, Remaining(b)).0)
  }

  /** `getArray()`: the backing array of a heap buffer, a copy of the
      contents otherwise.  Either way the Message API's view
      `getArray()[getOffset() .. getOffset() + getLength()]` is the payload
      (with the position-aware `NM.GetOffset`, which is 0 without an
      array). */
  function GetArray(m: NioDirectMessage): (r: Result<seq<byte>>)
    requires Valid(m)
    ensures m.base.buf.None? <==> r == Throws(NullPointer)
    ensures r.Ok? ==>
              var off := NM.GetOffset(m.base);
              && 0 <= off && off + NM.GetLength(m.base) <= |r.value|
              && r.value[off..off + NM.GetLength(m.base)] == Contents(m.base.buf.value)
  {
    if NM.HasArray(m.base) then
      assert NM.GetArray(m.base).value.value == m.base.buf.value.memory;
      Ok(m.base.buf.value.memory)
    else GetContents(m)
  }

  /** `getObject()`: null without a buffer; otherwise `deserialize` rebuilds
      the object from the contents, and a failure is an
      IllegalArgumentException. */
  function GetObject(m: NioDirectMessage, deserialize: seq<byte> -> Option<nat>): (r: Result<Option<nat>>)
    requires Valid(m)
    ensures m.base.buf.None? ==> r == Ok(None)
    ensures m.base.buf.Some? ==>
              r == if deserialize(Contents(m.base.buf.value)).None? then Throws(IllegalArgument)
                   else Ok(deserialize(Contents(m.base.buf.value)))
  {
    match m.base.buf
    case None => Ok(None)
    case Some(b) =>
      var d := deserialize(Contents(b));
      if d.None? then Throws(IllegalArgument) else Ok(d)
  }

  // ------------------------------------------------------------ copying

  /** `copy(copy_buffer, copy_headers)` as written: NioDirectMessage does not
      override it, so the copy NioMessage makes is a plain NioMessage. */
  function CopyAsWritten(m: NioDirectMessage, copyBuffer: bool, copyHeaders: bool): NM.NioMessage
  {
    NM.Copy(m.base, copyBuffer, copyHeaders)
  }

  /** `copy` through `create(dest)`, which NioDirectMessage overrides to
      make an NioDirectMessage: the copy has this message's type, the same
      envelope fields and, with `copyBuffer`, the same contents; like any new
      NioDirectMessage its flag starts cleared. */
  function Copy(m: NioDirectMessage, copyBuffer: bool, copyHeaders: bool): (r: NioDirectMessage)
    ensures GetType(r) == GetType(m) && !r.useHeapMemory
    ensures r.base.env.dest == m.base.env.dest && r.base.env.src == m.base.env.src
    ensures r.base.env.flags == m.base.env.flags
    ensures copyBuffer ==> r.base.buf == m.base.buf
    ensures !copyBuffer ==> r.base.buf.None?
  {
    NioDirectMessage(NM.Copy(m.base, copyBuffer, copyHeaders), false)
  }

  /** As written, copying an NioDirectMessage yields a message of another
      type, NIO_MSG, which a receiver reads with NioMessage's format. */
  lemma CopyAsWrittenChangesType(m: NioDirectMessage, copyBuffer: bool, copyHeaders: bool)
    ensures NM.GetType(CopyAsWritten(m, copyBuffer, copyHeaders)) == NioMsg != GetType(m)
    ensures GetType(Copy(m, copyBuffer, copyHeaders)) == GetType(m)
  {
  }

  // ------------------------------------------------------------ wire format

  /** `sizeOfPayload()` as written: NioMessage's size, which already counts
      the flag byte, plus one more byte for the flag. */
  function SizeOfPayloadAsWritten(m: NioDirectMessage): int
  {
    NM.SizeOfPayload(m.base) + (if m.base.buf.Some? then BYTE_SIZE else 0)
  }

  /** `writePayload(out)`: the count (`-1` without a buffer), the
      `useHeapMemory` flag, then the contents. */
  function WritePayload(m: NioDirectMessage): (r: seq<byte>)
    requires Valid(m)
    ensures m.base.buf.None? ==> r == WriteInt(-1)
    ensures m.base.buf.Some? ==>
              r == WriteInt(NM.GetLength(m.base)) + WriteBoolean(m.useHeapMemory) + Contents(m.base.buf.value)
  {
    match m.base.buf
    case None => WriteInt(-1)
    case Some(b) => WriteInt(Remaining(b)) + WriteBoolean(m.useHeapMemory) + Contents(b)
  }

  /** `sizeOfPayload()` corrected: the count, the flag and the contents,
      which is what NioMessage's size already is. */
  function SizeOfPayload(m: NioDirectMessage): (r: int)
    requires Valid(m)
    ensures r == |WritePayload(m)|
  {
    NM.SizeOfPayload(m.base)
  }

  /** `writePayload(out)` with its loop: a duplicate drained through the
      transfer array, whatever kind of buffer it is. */
  method WritePayloadChunked(m: NioDirectMessage) returns (out: seq<byte>)
    requires Valid(m)
    ensures out == WritePayload(m)
  {
    match m.base.buf
    case None =>
      out := WriteInt(-1);
    case Some(b) =>
      var bytes, _, _ := TransferChunks(b);
      out := WriteInt(Remaining(b)) + WriteBoolean(m.useHeapMemory) + bytes;
  }

  /** The size as written overcounts every message that has a buffer by
      the one byte, and is right only for messages without one. */
  lemma SizeAsWrittenOvercounts(m: NioDirectMessage)
    requires Valid(m)
    ensures m.base.buf.Some? ==> SizeOfPayloadAsWritten(m) == |WritePayload(m)| + 1
    ensures m.base.buf.None? ==> SizeOfPayloadAsWritten(m) == |WritePayload(m)|
  {
  }

  /** `createBuffer(array, 0, n)`: heap memory wrapping the array when the
      flag is set, direct memory holding a copy otherwise. */
  function CreateBuffer(useHeapMemory: bool, a: seq<byte>): (r: ByteBuffer)
    requires |a| <= INT_MAX
    ensures ByteBuffers.Valid(r) && r.position == 0 && Contents(r) == a
    ensures r.direct == !useHeapMemory
  {
    if useHeapMemory then ByteBuffer(a, 0, |a|, 0, |a|, false) else DirectOf(a)
  }

  /** `readPayload(in)`: a negative count leaves the message as it is;
      otherwise the flag is read into `useHeapMemory` and the next `count`
      bytes into a buffer of the kind it names. */
  function ReadPayload(m: NioDirectMessage, input: seq<byte>): (r: Result<(NioDirectMessage, seq<byte>)>)
    ensures r.Throws? ==> r.ex == EndOfStream
    ensures r.Ok? ==> r.value.0.base.env == m.base.env && |r.value.1| <= |input|
    ensures ReadInt(input).Ok? && ReadInt(input).value.0 < 0 ==> r == Ok((m, input[INT_SIZE..]))
  {
    var (len, rest) :- ReadInt(input);
    if len < 0 then Ok((m, rest))
    else
      var (flag, rest') :- ReadBoolean(rest);
      var (tmp, rest'') :- ReadFully(rest', len);
      Ok((NioDirectMessage(m.base.(buf := Some(CreateBuffer(flag, tmp))), flag), rest''))
  }

  /** A message read back from what `writePayload` wrote has the same
      contents and the sender's `useHeapMemory`, in a buffer of the kind the
      flag names; no buffer stays no buffer and keeps the receiver's flag. */
  lemma PayloadRoundTrip(m: NioDirectMessage, receiver: NioDirectMessage, rest: seq<byte>)
    requires Valid(m) && receiver.base.buf.None?
    ensures var r := ReadPayload(receiver, WritePayload(m) + rest);
            && r.Ok? && r.value.1 == rest && Valid(r.value.0)
            && (m.base.buf.None? ==> r.value.0 == receiver)
            && (m.base.buf.Some? ==>
                  && r.value.0.useHeapMemory == m.useHeapMemory
                  && r.value.0.base.buf.Some?
                  && Contents(r.value.0.base.buf.value) == Contents(m.base.buf.value)
                  && r.value.0.base.buf.value.direct == !m.useHeapMemory)
  {
    match m.base.buf
    case None =>
      ReadWriteInt(-1, rest);
    case Some(b) =>
      var c := Contents(b);
      var flag := WriteBoolean(m.useHeapMemory);
      assert WritePayload(m) + rest == WriteInt(Remaining(b)) + (flag + (c + rest));
      ReadWriteInt(Remaining(b), flag + (c + rest));
      ReadWriteBoolean(m.useHeapMemory, c + rest);
      assert (c + rest)[..|c|] == c;
  }

  /** `setArray("hello world", 6, 5)` on a new message: the array view reads
      "world", through the copy of the contents or the heap array alike. */
  lemma ArrayViewAfterSetArray(env: Envelope, heap: bool)
    ensures var hw: seq<byte> := [104, 101, 108, 108, 111, 32, 119, 111, 114, 108, 100];
            var s := NM.SetArray(New(env).base, Some(hw), 6, 5);
            && s.Ok?
            && var m := UseHeapMemory(NioDirectMessage(s.value, false), heap);
            && GetArray(m).Ok? && NM.GetLength(m.base) == 5
            && GetArray(m).value[NM.GetOffset(m.base)..NM.GetOffset(m.base) + 5] == [119, 111, 114, 108, 100]
  {
  }
}
