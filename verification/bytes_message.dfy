/**
 * BytesMessage: a message whose payload is a view `[offset, offset + length)`
 * of a byte array that is shared, never copied.  On the wire the payload is
 * an int length, `-1` when there is no array at all, followed by the bytes of
 * the view; so an absent payload and an empty one stay distinct.
 */
module BytesMessages {
  import opened JavaLang
  import opened Wire
  import opened Envelopes
  import PartialOutput

  datatype BytesMessage = BytesMessage(env: Envelope, buf: Option<seq<byte>>, offset: int, length: int)

  /** A Java array holds at most INT_MAX elements, and the fields are ints. */
  predicate JavaFields(m: BytesMessage)
  {
    IsInt(m.offset) && IsInt(m.length) && (m.buf.Some? ==> |m.buf.value| <= INT_MAX)
  }

  /** The bounds `setArray` checks, as it evaluates them on ints. */
  predicate AcceptedBounds(b: seq<byte>, off: int, len: int)
    requires IsInt(off) && IsInt(len)
  {
    0 <= off <= |b| && AddInt(off, len) <= |b|
  }

  /** The state a successful `setArray` leaves behind. */
  predicate Valid(m: BytesMessage)
  {
    && JavaFields(m)
    && (m.buf.None? ==> m.offset == 0 && m.length == 0)
    && (m.buf.Some? ==> AcceptedBounds(m.buf.value, m.offset, m.length))
  }

  /** `new BytesMessage(false)` as a receiver or copy target sees it. */
  function Fresh(env: Envelope): (m: BytesMessage)
    ensures Valid(m) && m.buf.None?
  {
    BytesMessage(env, None, 0, 0)
  }

  /** A call that may throw after it has already changed the receiver. */
  datatype Outcome = Outcome(msg: BytesMessage, thrown: Option<Exception>)

  /** `setArray(b, off, len)`: the array is replaced first, then the bounds
      are checked; a failure leaves the old offset and length in place. */
  function SetArray(m: BytesMessage, b: Option<seq<byte>>, off: int, len: int): (r: Outcome)
    requires IsInt(off) && IsInt(len)
    ensures r.msg.env == m.env && r.msg.buf == b
    ensures b.None? ==> r.thrown == None && r.msg.offset == 0 && r.msg.length == 0
    ensures b.Some? ==> (r.thrown == None <==> AcceptedBounds(b.value, off, len))
    ensures r.thrown.Some? ==> r.thrown == Some(IndexOutOfBounds) && r.msg.offset == m.offset && r.msg.length == m.length
    ensures r.thrown.None? && b.Some? ==> r.msg.offset == off && r.msg.length == len
    ensures r.thrown.None? && (b.Some? ==> |b.value| <= INT_MAX) ==> Valid(r.msg)
  {
    var m' := m.(buf := b);
    match b
    case None => Outcome(m'.(offset := 0, length := 0), None)
    case Some(arr) =>
      if off < 0 || off > |arr| then Outcome(m', Some(IndexOutOfBounds))
      else if AddInt(off, len) > |arr| then Outcome(m', Some(IndexOutOfBounds))
      else Outcome(m'.(offset := off, length := len), None)
  }

  /** `setObject(obj)` for the two cases modelled: `null` changes nothing, a
      byte array `a` becomes the whole-array view `setArray(a, 0, a.length)`. */
  function SetObject(m: BytesMessage, obj: Option<seq<byte>>): (r: Outcome)
    requires obj.Some? ==> |obj.value| <= INT_MAX
    ensures r.thrown == None
    ensures obj.None? ==> r.msg == m
    ensures obj.Some? ==> Valid(r.msg) && r.msg.env == m.env && View(r.msg) == obj
  {
    match obj
    case None => Outcome(m, None)
    case Some(a) =>
      assert a[0..|a|] == a;
      SetArray(m, obj, 0, |a|)
  }

  function HasPayload(m: BytesMessage): bool
  {
    m.buf.Some? && m.length > 0
  }

  function GetLength(m: BytesMessage): int
  {
    m.length
  }

  /** The bytes the message stands for: its view of the array, when the view
      lies inside the array. */
  function View(m: BytesMessage): (v: Option<seq<byte>>)
    ensures v.Some? ==> m.buf.Some? && |v.value| == m.length
  {
    if m.buf.Some? && 0 <= m.offset && 0 <= m.length && m.offset + m.length <= |m.buf.value|
    then Some(m.buf.value[m.offset..m.offset + m.length])
    else None
  }

  /** `hasPayload()` holds exactly when the message carries at least one byte. */
  lemma HasPayloadIffBytes(m: BytesMessage)
    requires Valid(m) && (m.buf.None? || View(m).Some?)
    ensures HasPayload(m) <==> View(m).Some? && |View(m).value| > 0
    ensures GetLength(m) == (if View(m).Some? then |View(m).value| else 0)
  {
  }

  /** `copy(copy_buffer, copy_headers)`: a new message with the envelope
      copied; with `copy_buffer` the copy re-views the same array through
      `setArray` (which throws if the view is stale), without copying bytes. */
  function Copy(m: BytesMessage, copyBuffer: bool, copyHeaders: bool): (r: Result<BytesMessage>)
    requires JavaFields(m)
    ensures Valid(m) ==> r.Ok?
    ensures r.Throws? ==> r.ex == IndexOutOfBounds
    ensures r.Ok? ==> r.value.env == CopyEnvelope(m.env, copyHeaders)
    ensures r.Ok? && copyBuffer ==> r.value.buf == m.buf && View(r.value) == View(m)
    ensures r.Ok? && copyBuffer && m.buf.Some? ==> r.value.offset == m.offset && r.value.length == m.length
    ensures r.Ok? && (!copyBuffer || m.buf.None?) ==> r.value == Fresh(CopyEnvelope(m.env, copyHeaders))
  {
    var target := Fresh(CopyEnvelope(m.env, copyHeaders));
    if copyBuffer && m.buf.Some? then
      var o := SetArray(target, m.buf, m.offset, m.length);
      if o.thrown.Some? then Throws(o.thrown.value) else Ok(o.msg)
    else Ok(target)
  }

  /** `sizeOfPayload()`. */
  function SizeOfPayload(m: BytesMessage): int
  {
    INT_SIZE + (if m.buf.Some? then m.length else 0)
  }

  /** `writePayload(out)`: the length, or -1 for no array, then the view. */
  function WritePayload(m: BytesMessage): (r: Result<seq<byte>>)
    ensures r.Ok? <==> m.buf.None? || View(m).Some?
    ensures r.Ok? ==> |r.value| == SizeOfPayload(m)
    ensures r.Ok? && m.buf.None? ==> r.value == WriteInt(-1)
    ensures r.Ok? && m.buf.Some? ==> r.value == WriteInt(m.length) + View(m).value
    ensures r.Throws? ==> r.ex == IndexOutOfBounds
  {
    var head := WriteInt(if m.buf.Some? then m.length else -1);
    if m.buf.None? then Ok(head)
    else
      var body :- WriteRange(m.buf.value, m.offset, m.length);
      assert body == m.buf.value[m.offset..m.offset + m.length];
      Ok(head + body)
  }

  /** `readPayload(in)`: a non-negative length is followed by that many bytes,
      which become a fresh array; the offset is not touched.  A negative
      length leaves the message as it was. */
  function ReadPayload(m: BytesMessage, input: seq<byte>): (r: Result<(BytesMessage, seq<byte>)>)
    ensures r.Throws? ==> r.ex == EndOfStream
    ensures r.Ok? <==> |input| >= INT_SIZE && (ReadInt(input).value.0 >= 0 ==> |input| >= INT_SIZE + ReadInt(input).value.0)
    ensures r.Ok? ==> var (g, rest) := r.value;
                      var len := ReadInt(input).value.0;
                      && g.env == m.env && g.offset == m.offset
                      && (len >= 0 ==> g.buf == Some(input[INT_SIZE..INT_SIZE + len]) && g.length == len && rest == input[INT_SIZE + len..])
                      && (len < 0 ==> g == m && rest == input[INT_SIZE..])
  {
    var (len, rest) :- ReadInt(input);
    if len >= 0 then
      var (bytes, rest') :- ReadFully(rest, len);
      assert bytes == input[INT_SIZE..INT_SIZE + len];
      assert rest' == input[INT_SIZE + len..];
      Ok((m.(buf := Some(bytes), length := len), rest'))
    else Ok((m, rest))
  }

  /** Whatever `writePayload` emits, `readPayload` into a fresh message
      restores: no array stays no array, and otherwise the fresh message holds
      exactly the viewed bytes, at offset 0, with the same length. */
  lemma PayloadRoundTrip(m: BytesMessage, env: Envelope, rest: seq<byte>)
    requires JavaFields(m) && WritePayload(m).Ok?
    ensures m.buf.None? ==> ReadPayload(Fresh(env), WritePayload(m).value + rest) == Ok((Fresh(env), rest))
    ensures m.buf.Some? ==> ReadPayload(Fresh(env), WritePayload(m).value + rest)
                            == Ok((BytesMessage(env, View(m), 0, m.length), rest))
  {
    var out := WritePayload(m).value;
    if m.buf.None? {
      ReadWriteInt(-1, rest);
    } else {
      var v := View(m).value;
      ReadWriteInt(m.length, v + rest);
      assert out + rest == WriteInt(m.length) + (v + rest);
      assert (out + rest)[INT_SIZE..INT_SIZE + m.length] == v;
      assert (out + rest)[INT_SIZE + m.length..] == rest;
    }
  }

  /** An absent payload and an empty one have different encodings, and each
      decodes back to its own kind. */
  lemma AbsentAndEmptyStayDistinct(env: Envelope, arr: seq<byte>)
    requires |arr| <= INT_MAX
    ensures var absent := Fresh(env);
            var empty := BytesMessage(env, Some(arr), 0, 0);
            && WritePayload(absent).value != WritePayload(empty).value
            && ReadPayload(Fresh(env), WritePayload(absent).value) == Ok((absent, []))
            && ReadPayload(Fresh(env), WritePayload(empty).value) == Ok((BytesMessage(env, Some([]), 0, 0), []))
  {
    var absent := Fresh(env);
    var empty := BytesMessage(env, Some(arr), 0, 0);
    var none: seq<byte> := [];
    PayloadRoundTrip(absent, env, none);
    PayloadRoundTrip(empty, env, none);
    assert WritePayload(absent).value + none == WritePayload(absent).value;
    assert WritePayload(empty).value + none == WritePayload(empty).value;
    assert View(empty) == Some([]);
    ReadWriteInt(-1, none);
    ReadWriteInt(0, none);
    assert WriteInt(0) + none == WriteInt(0);
    assert WriteInt(-1) + none == WriteInt(-1);
  }

  /** `setArray` checks neither the sign of the length nor the int overflow of
      `off + len`: both views below are accepted, yet neither lies inside the
      array, so the message later fails in `writePayload`. */
  lemma SetArrayAcceptsViewsOutsideTheArray(m: BytesMessage)
    ensures var neg := SetArray(m, Some([1, 2, 3]), 0, -1);
            neg.thrown == None && View(neg.msg) == None && WritePayload(neg.msg).Throws?
    ensures var big := SetArray(m, Some([1, 2, 3]), 1, INT_MAX);
            big.thrown == None && View(big.msg) == None && WritePayload(big.msg).Throws?
  {
  }

  /** After a failed `setArray` the new array is in place but the old
      offset and length remain, so the message need not be valid any more. */
  lemma FailedSetArrayLeavesStaleView(env: Envelope)
    ensures var m := BytesMessage(env, Some([1, 2, 3, 4]), 2, 2);
            var o := SetArray(m, Some([7]), 0, 5);
            Valid(m) && o.thrown == Some(IndexOutOfBounds) && o.msg.buf == Some([7]) && !Valid(o.msg)
  {
  }

  // ------------------------------------------- the writes of writePayload

  /** The write calls `writePayload` makes on a stream: the int, then one
      range write of the view. */
  function PayloadWrites(m: BytesMessage): (ws: seq<PartialOutput.Write>)
    requires m.buf.None? || View(m).Some?
    ensures PartialOutput.ValidWrites(ws)
    ensures PartialOutput.Serialized(ws) == WritePayload(m).value
  {
    var head := WriteInt(if m.buf.Some? then m.length else -1);
    var first := PartialOutput.Bytes(head, 0, INT_SIZE);
    assert head[0..INT_SIZE] == head;
    if m.buf.None? then
      assert PartialOutput.Serialized([first]) == head + PartialOutput.Serialized([]);
      [first]
    else
      var second := PartialOutput.Bytes(m.buf.value, m.offset, m.length);
      var ws := [first, second];
      assert ws[1..] == [second] && ws[1..][1..] == [];
      assert PartialOutput.Serialized([second]) == PartialOutput.Emitted(second) + PartialOutput.Serialized([]);
      assert PartialOutput.Serialized(ws) == head + PartialOutput.Serialized([second]);
      ws
  }
}
