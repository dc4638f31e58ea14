/**
 * java.nio.ByteBuffer as the NIO messages use it, reduced to a value: the
 * backing memory, where the buffer's window starts in it, the capacity, the
 * position and the limit, and whether the memory is direct (off-heap, with
 * no accessible array) or a heap array.  `duplicate()` shares the memory with
 * independent position and limit, which for a value is the value itself.
 */
module ByteBuffers {
  import opened JavaLang
  import opened Wire

  datatype ByteBuffer = ByteBuffer(memory: seq<byte>, arrayOffset: int, capacity: int,
                                   position: int, limit: int, direct: bool)

  /** The buffer invariant `0 <= position <= limit <= capacity`, inside its
      memory, and a Java-sized backing array. */
  predicate Valid(b: ByteBuffer)
  {
    && 0 <= b.arrayOffset && 0 <= b.capacity && b.arrayOffset + b.capacity <= |b.memory| <= INT_MAX
    && 0 <= b.position <= b.limit <= b.capacity
  }

  /** `hasArray()`: heap buffers expose their array, direct ones do not. */
  predicate HasArray(b: ByteBuffer) { !b.direct }

  /** `remaining()`. */
  function Remaining(b: ByteBuffer): int { b.limit - b.position }

  /** The bytes between position and limit. */
  function Contents(b: ByteBuffer): (v: seq<byte>)
    requires Valid(b)
    ensures |v| == Remaining(b)
  {
    b.memory[b.arrayOffset + b.position..b.arrayOffset + b.limit]
  }

  /** `ByteBuffer.wrap(array, offset, length)`: a heap buffer over the whole
      array, positioned at `offset` with `length` bytes remaining; a null
      array is a NullPointerException and a range outside it an index
      error. */
  function WrapArray(a: Option<seq<byte>>, off: int, len: int): (r: Result<ByteBuffer>)
    ensures r.Ok? <==> a.Some? && 0 <= off && 0 <= len && off + len <= |a.value|
    ensures r.Throws? ==> r.ex == if a.None? then NullPointer else IndexOutOfBounds
    ensures r.Ok? && |a.value| <= INT_MAX ==>
              Valid(r.value) && HasArray(r.value) && Remaining(r.value) == len
              && Contents(r.value) == a.value[off..off + len]
  {
    if a.None? then Throws(NullPointer)
    else if !(0 <= off && 0 <= len && off + len <= |a.value|) then Throws(IndexOutOfBounds)
    else Ok(ByteBuffer(a.value, 0, |a.value|, off, off + len, false))
  }

  /** `ByteBuffer.allocateDirect(n).put(bytes, 0, n).flip()`: direct memory
      holding exactly `bytes`, ready to be read from the start. */
  function DirectOf(bytes: seq<byte>): (r: ByteBuffer)
    requires |bytes| <= INT_MAX
    ensures Valid(r) && r.direct && r.position == 0 && Contents(r) == bytes
  {
    ByteBuffer(bytes, 0, |bytes|, 0, |bytes|, true)
  }

  /** `get(dst, 0, n)` on a duplicate: the next `n` bytes, and the duplicate
      moved past them. */
  function Get(b: ByteBuffer, n: int): (r: (seq<byte>, ByteBuffer))
    requires Valid(b) && 0 <= n <= Remaining(b)
    ensures Valid(r.1) && r.1 == b.(position := b.position + n)
    ensures r.0 == Contents(b)[..n]
  {
    var lo := b.arrayOffset + b.position;
    assert b.memory[lo..lo + n] == Contents(b)[..n] by {
      forall k | 0 <= k < n ensures b.memory[lo..lo + n][k] == Contents(b)[..n][k] {
        assert Contents(b)[k] == b.memory[lo + k];
      }
    }
    (b.memory[lo..lo + n], b.(position := b.position + n))
  }

  /** The size of the transfer array the NIO messages allocate:
      `max(remaining / 10, 128)`. */
  function TransferSize(b: ByteBuffer): (n: int)
    requires Valid(b)
    ensures n >= 128 && n >= Remaining(b) / 10
  {
    Max(Remaining(b) / 10, 128)
  }

  /** The copy loop the NIO messages use when the buffer has no array: a
      duplicate is drained through a transfer array in chunks of at most
      `TransferSize` bytes.  The bytes written are exactly the buffer's
      contents, in order; every chunk is non-empty and fits the transfer
      array; and the caller's buffer keeps its position, since only the
      duplicate moves. */
  method TransferChunks(b: ByteBuffer) returns (out: seq<byte>, chunks: seq<int>, drained: ByteBuffer)
    requires Valid(b)
    ensures out == Contents(b)
    ensures forall k :: 0 <= k < |chunks| ==> 0 < chunks[k] <= TransferSize(b)
    ensures Sum(chunks) == Remaining(b)
    ensures drained == b.(position := b.limit) && Remaining(drained) == 0
  {
    var copy := b;
    var transfer := TransferSize(b);
    var done := 0;
    out := [];
    chunks := [];
    while Remaining(copy) > 0
      invariant 0 <= done <= Remaining(b) && copy == b.(position := b.position + done)
      invariant out == Contents(b)[..done]
      invariant forall k :: 0 <= k < |chunks| ==> 0 < chunks[k] <= transfer
      invariant Sum(chunks) == done
      decreases Remaining(copy)
    {
      var bytes := Min(transfer, Remaining(copy));
      var got := Get(copy, bytes).0;
      TakeAfterAdvance(b, done, bytes);
      out := out + got;
      SumAppend(chunks, bytes);
      chunks := chunks + [bytes];
      copy := Get(copy, bytes).1;
      done := done + bytes;
    }
    assert Contents(b)[..done] == Contents(b);
    drained := copy;
  }

  /** What a duplicate advanced by `done` hands out next is the next slice
      of the contents, and it extends what was handed out before. */
  lemma TakeAfterAdvance(b: ByteBuffer, done: int, n: int)
    requires Valid(b) && 0 <= done && 0 <= n && done + n <= Remaining(b)
    ensures Valid(b.(position := b.position + done))
    ensures Contents(b.(position := b.position + done))[..n] == Contents(b)[done..done + n]
    ensures Contents(b)[..done] + Contents(b)[done..done + n] == Contents(b)[..done + n]
  {
  }

  function Sum(xs: seq<int>): int
  {
    if xs == [] then 0 else Sum(xs[..|xs| - 1]) + xs[|xs| - 1]
  }

  lemma SumAppend(xs: seq<int>, x: int)
    ensures Sum(xs + [x]) == Sum(xs) + x
  {
    assert (xs + [x])[..|xs|] == xs;
  }
}

/**
 * NioMessage: a message whose payload is a ByteBuffer, heap or direct.  On
 * the wire the payload is the int remaining count (`-1` without a buffer),
 * then whether the buffer is direct, then the bytes between position and
 * limit; the receiver allocates the same kind of buffer.
 */
module NioMessages {
  import opened JavaLang
  import opened Wire
  import opened Envelopes
  import opened ByteBuffers

  datatype NioMessage = NioMessage(env: Envelope, buf: Option<ByteBuffer>)

  /** `org.jgroups.util.ByteArray`: an array with an offset and a length. */
  datatype ByteArray = ByteArray(buf: seq<byte>, offset: int, length: int)

  /** What `setObject` can be handed: a byte array, a ByteArray, or any other
      object, which Java serialization (not part of this model; the
      `serialize` parameter below) turns into bytes or fails on. */
  datatype Obj = ObjBytes(bytes: seq<byte>) | ObjByteArray(ba: ByteArray) | ObjOther(id: nat)

  /** Every buffer the message holds keeps the ByteBuffer invariant. */
  predicate Valid(m: NioMessage)
  {
    m.buf.Some? ==> ByteBuffers.Valid(m.buf.value)
  }

  function GetType(m: NioMessage): MessageType { NioMsg }

  /** `hasPayload()`: any buffer counts, even one with nothing remaining. */
  predicate HasPayload(m: NioMessage) { m.buf.Some? }

  predicate HasArray(m: NioMessage) { m.buf.Some? && ByteBuffers.HasArray(m.buf.value) }

  /** `getOffset()` as written: the array offset of a heap buffer, else 0.
      It leaves out the buffer's position, so after `setArray(b, off, len)`
      with `off > 0` the array view starts `off` bytes early (see
      `OffsetAsWrittenMissesPosition`). */
  function GetOffsetAsWritten(m: NioMessage): int
  {
    if HasArray(m) then m.buf.value.arrayOffset else 0
  }

  /** `getLength()`: the remaining count, 0 without a buffer. */
  function GetLength(m: NioMessage): (r: int)
    ensures Valid(m) ==> r >= 0
    ensures Valid(m) && m.buf.Some? ==> r == |Contents(m.buf.value)|
  {
    if m.buf.Some? then Remaining(m.buf.value) else 0
  }

  /** `getArray()`: the backing array of a heap buffer, null for a direct
      one; without a buffer `buf.hasArray()` is a NullPointerException. */
  function GetArray(m: NioMessage): (r: Result<Option<seq<byte>>>)
    ensures m.buf.None? ==> r == Throws(NullPointer)
    ensures m.buf.Some? ==> r.Ok? && (r.value.Some? <==> HasArray(m))
    ensures HasArray(m) ==> r == Ok(Some(m.buf.value.memory))
  {
    if m.buf.None? then Throws(NullPointer)
    else if ByteBuffers.HasArray(m.buf.value) then Ok(Some(m.buf.value.memory))
    else Ok(None)
  }

  /** `getOffset()` as the Message API means it: where the payload starts in
      `getArray()`, which for a heap buffer is its array offset plus its
      position.  With it, `getArray()[getOffset() .. getOffset() +
      getLength()]` is exactly the bytes the message carries. */
  function GetOffset(m: NioMessage): (r: int)
    ensures !HasArray(m) ==> r == 0
    ensures Valid(m) && HasArray(m) ==>
              0 <= r && r + GetLength(m) <= |GetArray(m).value.value|
              && GetArray(m).value.value[r..r + GetLength(m)] == Contents(m.buf.value)
  {
    if HasArray(m) then m.buf.value.arrayOffset + m.buf.value.position else 0
  }

  /** `setArray(b, off, len)`: the buffer becomes `ByteBuffer.wrap(b, off, len)`. */
  function SetArray(m: NioMessage, b: Option<seq<byte>>, off: int, len: int): (r: Result<NioMessage>)
    ensures r.Ok? <==> b.Some? && 0 <= off && 0 <= len && off + len <= |b.value|
    ensures r.Ok? ==> r.value.env == m.env && r.value.buf.Some?
    ensures r.Ok? && |b.value| <= INT_MAX ==>
              Valid(r.value) && GetLength(r.value) == len && Contents(r.value.buf.value) == b.value[off..off + len]
  {
    var bb :- WrapArray(b, off, len);
    Ok(m.(buf := Some(bb)))
  }

  /** `setArray(ByteArray)`: null leaves the buffer as it is, otherwise the
      buffer wraps the ByteArray's range. */
  function SetByteArray(m: NioMessage, ba: Option<ByteArray>): (r: Result<NioMessage>)
    ensures ba.None? ==> r == Ok(m)
    ensures ba.Some? ==> r == SetArray(m, Some(ba.value.buf), ba.value.offset, ba.value.length)
  {
    if ba.None? then Ok(m) else SetArray(m, Some(ba.value.buf), ba.value.offset, ba.value.length)
  }

  /** `setObject(obj)`: null changes nothing, a byte array is wrapped whole,
      a ByteArray goes to `setArray(ByteArray)`, and any other object is
      wrapped after `serialize` turns it into bytes; a failed serialization
      is an IllegalArgumentException and leaves the message as it was. */
  function SetObject(m: NioMessage, obj: Option<Obj>, serialize: nat -> Option<seq<byte>>): (r: Result<NioMessage>)
    ensures obj.None? ==> r == Ok(m)
    ensures obj.Some? && obj.value.ObjBytes? && |obj.value.bytes| <= INT_MAX ==>
              r.Ok? && Valid(r.value) && r.value.buf.Some? && Contents(r.value.buf.value) == obj.value.bytes
    ensures obj.Some? && obj.value.ObjByteArray? ==> r == SetByteArray(m, Some(obj.value.ba))
    ensures obj.Some? && obj.value.ObjOther? && serialize(obj.value.id).None? ==> r == Throws(IllegalArgument)
    ensures obj.Some? && obj.value.ObjOther? && serialize(obj.value.id).Some?
            && |serialize(obj.value.id).value| <= INT_MAX ==>
              r.Ok? && Valid(r.value) && r.value.buf.Some?
              && Contents(r.value.buf.value) == serialize(obj.value.id).value
  {
    match obj
    case None => Ok(m)
    case Some(ObjBytes(a)) =>
      assert a[0..|a|] == a;
      SetArray(m, Some(a), 0, |a|)
    case Some(ObjByteArray(ba)) => SetByteArray(m, Some(ba))
    case Some(ObjOther(id)) =>
      match serialize(id)
      case None => Throws(IllegalArgument)
      case Some(a) =>
        assert a[0..|a|] == a;
        SetArray(m, Some(a), 0, |a|)
  }

  /** `getObject()` as written: without an array there is no object (null);
      otherwise `deserialize` is handed `getArray()[getOffset() ..
      getOffset() + getLength()]` with the as-written `getOffset()`, and a
      failure is an IllegalArgumentException.  That view starts `position`
      bytes before the payload, so it is the payload only while the buffer's
      position is 0 (see `GetObjectAsWrittenReadsHello`). */
  function GetObjectAsWritten(m: NioMessage, deserialize: seq<byte> -> Option<nat>): (r: Result<Option<nat>>)
    requires Valid(m)
    ensures !HasArray(m) ==> r == Ok(None)
    ensures r.Throws? ==> r.ex == IllegalArgument && HasArray(m)
    ensures HasArray(m) && m.buf.value.position == 0 ==> r == GetObject(m, deserialize)
  {
    if !HasArray(m) then Ok(None)
    else
      var off := GetOffsetAsWritten(m);
      var view := GetArray(m).value.value[off..off + GetLength(m)];
      if deserialize(view).None? then Throws(IllegalArgument) else Ok(deserialize(view))
  }

  /** `getObject()` corrected: the view is taken with the position-aware
      `GetOffset`, so `deserialize` sees exactly the bytes the message
      carries. */
  function GetObject(m: NioMessage, deserialize: seq<byte> -> Option<nat>): (r: Result<Option<nat>>)
    requires Valid(m)
    ensures !HasArray(m) ==> r == Ok(None)
    ensures HasArray(m) ==>
              r == if deserialize(Contents(m.buf.value)).None? then Throws(IllegalArgument)
                   else Ok(deserialize(Contents(m.buf.value)))
  {
    if !HasArray(m) then Ok(None)
    else
      var view := m.buf.value.memory[GetOffset(m)..GetOffset(m) + GetLength(m)];
      if deserialize(view).None? then Throws(IllegalArgument) else Ok(deserialize(view))
  }

  /** `copy(copy_buffer, copy_headers)`: the envelope carries over; with
      `copyBuffer` the copy shares the buffer's contents through
      `duplicate()`, otherwise it has none. */
  function Copy(m: NioMessage, copyBuffer: bool, copyHeaders: bool): (r: NioMessage)
    ensures r.env.dest == m.env.dest && r.env.src == m.env.src
    ensures r.env.flags == m.env.flags && r.env.transientFlags == m.env.transientFlags
    ensures copyBuffer ==> r.buf == m.buf
    ensures !copyBuffer ==> r.buf.None?
    ensures Valid(m) ==> Valid(r) && GetLength(r) == if copyBuffer then GetLength(m) else 0
  {
    NioMessage(CopyEnvelope(m.env, copyHeaders), if copyBuffer then m.buf else None)
  }

  /** `sizeOfPayload()`. */
  function SizeOfPayload(m: NioMessage): int
  {
    INT_SIZE + GetLength(m) + (if m.buf.Some? then BYTE_SIZE else 0)
  }

  /** `writePayload(out)`: the count, the direct flag, then the contents,
      taken straight from the array of a heap buffer and through the
      transfer loop otherwise (both give the same bytes, see
      `WritePayloadChunked`). */
  function WritePayload(m: NioMessage): (r: seq<byte>)
    requires Valid(m)
    ensures |r| == SizeOfPayload(m)
    ensures m.buf.None? ==> r == WriteInt(-1)
    ensures m.buf.Some? ==>
              r == WriteInt(GetLength(m)) + WriteBoolean(m.buf.value.direct) + Contents(m.buf.value)
  {
    match m.buf
    case None => WriteInt(-1)
    case Some(b) => WriteInt(Remaining(b)) + WriteBoolean(b.direct) + Contents(b)
  }

  /** `writePayload(out)` with its two branches as written: an array write
      for a heap buffer, the chunked copy of a duplicate for a direct one. */
  method WritePayloadChunked(m: NioMessage) returns (out: seq<byte>)
    requires Valid(m)
    ensures out == WritePayload(m)
  {
    match m.buf
    case None =>
      out := WriteInt(-1);
    case Some(b) =>
      out := WriteInt(Remaining(b)) + WriteBoolean(b.direct);
      if ByteBuffers.HasArray(b) {
        var w := WriteRange(b.memory, b.arrayOffset + b.position, Remaining(b));
        assert w.value == Contents(b);
        out := out + w.value;
      } else {
        var bytes, _, _ := TransferChunks(b);
        out := out + bytes;
      }
  }

  /** `readPayload(in)`: a negative count leaves the message as it is;
      otherwise the direct flag and exactly `count` bytes follow, and the
      message gets a fresh buffer of the kind the flag names. */
  function ReadPayload(m: NioMessage, input: seq<byte>): (r: Result<(NioMessage, seq<byte>)>)
    ensures r.Throws? ==> r.ex == EndOfStream
    ensures r.Ok? ==> r.value.0.env == m.env && |r.value.1| <= |input|
    ensures ReadInt(input).Ok? && ReadInt(input).value.0 < 0 ==> r == Ok((m, input[INT_SIZE..]))
  {
    var (len, rest) :- ReadInt(input);
    if len < 0 then Ok((m, rest))
    else
      var (isDirect, rest') :- ReadBoolean(rest);
      var (tmp, rest'') :- ReadFully(rest', len);
      var bb := if isDirect then DirectOf(tmp) else ByteBuffer(tmp, 0, |tmp|, 0, |tmp|, false);
      Ok((m.(buf := Some(bb)), rest''))
  }

  /** The receiving side of a round trip: no buffer stays no buffer, and a
      buffer arrives with the same contents and the same kind, at position
      0. */
  lemma PayloadRoundTrip(m: NioMessage, env: Envelope, rest: seq<byte>)
    requires Valid(m)
    ensures var r := ReadPayload(NioMessage(env, None), WritePayload(m) + rest);
            && r.Ok? && r.value.1 == rest && r.value.0.env == env && Valid(r.value.0)
            && (m.buf.None? ==> r.value.0.buf.None?)
            && (m.buf.Some? ==>
                  && r.value.0.buf.Some? && r.value.0.buf.value.position == 0
                  && Contents(r.value.0.buf.value) == Contents(m.buf.value)
                  && r.value.0.buf.value.direct == m.buf.value.direct
                  && GetLength(r.value.0) == GetLength(m))
  {
    match m.buf
    case None =>
      ReadWriteInt(-1, rest);
    case Some(b) =>
      var c := Contents(b);
      var flag := WriteBoolean(b.direct);
      assert WritePayload(m) + rest == WriteInt(Remaining(b)) + (flag + (c + rest));
      ReadWriteInt(Remaining(b), flag + (c + rest));
      ReadWriteBoolean(b.direct, c + rest);
      var tmp := ReadFully(c + rest, |c|).value;
      assert tmp.0 == (c + rest)[..|c|] == c;
      assert c[0..|c|] == c;
  }

  /** Heap and direct buffers with the same contents write the same bytes
      but for the flag byte. */
  lemma HeapAndDirectDifferInFlag(env: Envelope, a: seq<byte>)
    requires |a| <= INT_MAX
    ensures var h := SetArray(NioMessage(env, None), Some(a), 0, |a|);
            var d := NioMessage(env, Some(DirectOf(a)));
            && h.Ok? && HasArray(h.value) && !HasArray(d)
            && WritePayload(h.value) == WriteInt(|a|) + WriteBoolean(false) + a
            && WritePayload(d) == WriteInt(|a|) + WriteBoolean(true) + a
  {
    assert a[0..|a|] == a;
  }

  /** The array view after `setArray("hello world", 6, 5)`: as written,
      `getOffset()` is 0 and the view reads "hello"; with the position
      counted it is 6 and the view reads "world", the bytes the message
      carries. */
  lemma OffsetAsWrittenMissesPosition(env: Envelope)
    ensures var hw: seq<byte> := [104, 101, 108, 108, 111, 32, 119, 111, 114, 108, 100];
            var m := SetArray(NioMessage(env, None), Some(hw), 6, 5);
            && m.Ok? && HasArray(m.value) && GetLength(m.value) == 5
            && GetOffsetAsWritten(m.value) == 0
            && hw[GetOffsetAsWritten(m.value)..GetOffsetAsWritten(m.value) + 5] == [104, 101, 108, 108, 111]
            && GetOffset(m.value) == 6
            && hw[GetOffset(m.value)..GetOffset(m.value) + 5] == [119, 111, 114, 108, 100]
            && Contents(m.value.buf.value) == [119, 111, 114, 108, 100]
  {
  }

  /** `getObject()` after `setArray("hello world", 6, 5)`, with a
      deserialiser that reads the first byte: as written it deserialises
      "hello" (104, 'h'); corrected it deserialises the payload "world"
      (119, 'w'). */
  lemma GetObjectAsWrittenReadsHello(env: Envelope)
    ensures var hw: seq<byte> := [104, 101, 108, 108, 111, 32, 119, 111, 114, 108, 100];
            var m := SetArray(NioMessage(env, None), Some(hw), 6, 5);
            var first := (s: seq<byte>) => if |s| == 0 then None else Some(s[0] as nat);
            && m.Ok? && Valid(m.value)
            && GetObjectAsWritten(m.value, first) == Ok(Some(104))
            && GetObject(m.value, first) == Ok(Some(119))
  {
    var hw: seq<byte> := [104, 101, 108, 108, 111, 32, 119, 111, 114, 108, 100];
    OffsetAsWrittenMissesPosition(env);
    assert hw[0..5][0] == 104 && hw[6..11][0] == 119;
  }

  /** An object stored with `setObject` comes back from `getObject` whenever
      `deserialize` inverts `serialize` on it -- both as written and
      corrected, since `setObject` wraps the serialised bytes whole and the
      buffer's position is 0. */
  lemma SetObjectThenGetObject(m: NioMessage, id: nat, serialize: nat -> Option<seq<byte>>,
                               deserialize: seq<byte> -> Option<nat>)
    requires serialize(id).Some? && |serialize(id).value| <= INT_MAX
    requires deserialize(serialize(id).value) == Some(id)
    ensures var r := SetObject(m, Some(ObjOther(id)), serialize);
            && r.Ok? && Valid(r.value)
            && GetObject(r.value, deserialize) == Ok(Some(id))
            && GetObjectAsWritten(r.value, deserialize) == Ok(Some(id))
  {
    var a := serialize(id).value;
    assert a[0..|a|] == a;
  }
}
