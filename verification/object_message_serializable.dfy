/**
 * ObjectMessageSerializable: a message whose payload is an object.  An
 * object that is SizeStreamable is written with JGroups' own generic
 * streamable format; any other object is turned into bytes by Java
 * serialization the first time its size or its bytes are needed, and those
 * bytes are kept (`serialized_obj`) and reused from then on.
 *
 * Java serialization and the generic streamable format live in Util, which
 * is not part of this model; they are the `ObjCodec` parameter, and the
 * round-trip properties hold for any codec that reads back what it writes.
 */
module ObjectMessages {
  import opened JavaLang
  import opened Wire
  import opened Envelopes

  /** An application object: its identity and whether it implements
      SizeStreamable. */
  datatype Obj = Obj(id: nat, sizeStreamable: bool)

  datatype ObjCodec = ObjCodec(
    toBytes: Obj -> Option<seq<byte>>,                        // Util.objectToByteBuffer; None: it throws
    fromBytes: seq<byte> -> Option<Obj>,                      // Util.objectFromByteBuffer; None: it throws
    writeGeneric: Obj -> seq<byte>,                           // Util.writeGenericStreamable
    readGeneric: seq<byte> -> Result<(Option<Obj>, seq<byte>)>, // Util.readGenericStreamable
    streamSize: Obj -> int)                                   // Util.size, and the base class's objSize

  /** A codec that reads back what it writes and sizes streamables
      exactly. */
  ghost predicate Sound(c: ObjCodec)
  {
    && (forall o: Obj :: !o.sizeStreamable && c.toBytes(o).Some? ==>
          |c.toBytes(o).value| <= INT_MAX && c.fromBytes(c.toBytes(o).value) == Some(o))
    && (forall o: Obj, rest: seq<byte> :: o.sizeStreamable ==> c.readGeneric(c.writeGeneric(o) + rest) == Ok((Some(o), rest)))
    && (forall o: Obj :: o.sizeStreamable ==> c.streamSize(o) == |c.writeGeneric(o)|)
  }

  datatype ObjMessage = ObjMessage(env: Envelope, obj: Option<Obj>, serialized: Option<seq<byte>>)

  /** The cached bytes fit a Java array. */
  predicate Valid(m: ObjMessage)
  {
    m.serialized.Some? ==> |m.serialized.value| <= INT_MAX
  }

  /** The cached bytes, if any, are those of the object the message holds,
      as far as the codec can tell. */
  predicate Consistent(m: ObjMessage, c: ObjCodec)
  {
    m.serialized.Some? ==> m.obj.Some? && c.fromBytes(m.serialized.value) == m.obj
  }

  function GetType(m: ObjMessage): MessageType { ObjMsg }

  /** `swizzle()`: serializes the object once.  With bytes already cached, or
      no object, nothing happens; a failed serialization is a
      RuntimeException and caches nothing. */
  function Swizzle(m: ObjMessage, c: ObjCodec): (r: Result<ObjMessage>)
    ensures m.serialized.Some? || m.obj.None? ==> r == Ok(m)
    ensures m.serialized.None? && m.obj.Some? ==>
              r == if c.toBytes(m.obj.value).None? then Throws(Marshalling)
                   else Ok(m.(serialized := c.toBytes(m.obj.value)))
    ensures r.Ok? ==> r.value.env == m.env && r.value.obj == m.obj
  {
    if m.serialized.Some? || m.obj.None? then Ok(m)
    else
      var s := c.toBytes(m.obj.value);
      if s.None? then Throws(Marshalling) else Ok(m.(serialized := s))
  }

  /** `getLength()`: 0 without an object, the streamable size of a
      SizeStreamable, otherwise the length of the serialized bytes, which
      this serializes and caches when needed.  Returns the length with the
      message as the call leaves it. */
  function GetLength(m: ObjMessage, c: ObjCodec): (r: Result<(int, ObjMessage)>)
    ensures m.obj.None? ==> r == Ok((0, m))
    ensures m.obj.Some? && m.obj.value.sizeStreamable ==> r == Ok((c.streamSize(m.obj.value), m))
    ensures m.obj.Some? && !m.obj.value.sizeStreamable ==>
              (r.Ok? <==> Swizzle(m, c).Ok?)
    ensures r.Ok? && m.obj.Some? && !m.obj.value.sizeStreamable && Swizzle(m, c).Ok? ==>
              r.value.1 == Swizzle(m, c).value && r.value.1.serialized.Some? && r.value.0 == |r.value.1.serialized.value|
  {
    if m.obj.None? then Ok((0, m))
    else if m.obj.value.sizeStreamable then Ok((c.streamSize(m.obj.value), m))
    else if m.serialized.Some? then Ok((|m.serialized.value|, m))
    else
      var m' :- Swizzle(m, c);
      Ok((if m'.serialized.Some? then |m'.serialized.value| else 0, m'))
  }

  /** `objSize()`: the streamable flag, then either the streamable's size or
      the int length and the serialized bytes. */
  function ObjSize(m: ObjMessage, c: ObjCodec): (r: Result<(int, ObjMessage)>)
    ensures r.Ok? ==> r.value.1.env == m.env && r.value.1.obj == m.obj
  {
    if m.obj.Some? && m.obj.value.sizeStreamable then Ok((BYTE_SIZE + c.streamSize(m.obj.value), m))
    else if m.obj.None? then Ok((BYTE_SIZE + INT_SIZE, m))
    else
      var m' :- Swizzle(m, c);
      Ok((BYTE_SIZE + INT_SIZE + (if m'.serialized.Some? then |m'.serialized.value| else 0), m'))
  }

  /** `write(out)`: whether the object is SizeStreamable; then its generic
      streamable form, or the length and the serialized bytes, or `-1` for
      no object.  Returns the bytes with the message as the call leaves
      it. */
  function Write(m: ObjMessage, c: ObjCodec): (r: Result<(seq<byte>, ObjMessage)>)
    ensures r.Ok? ==> r.value.1.env == m.env && r.value.1.obj == m.obj
  {
    if m.obj.Some? && m.obj.value.sizeStreamable then
      Ok((WriteBoolean(true) + c.writeGeneric(m.obj.value), m))
    else if m.obj.None? then Ok((WriteBoolean(false) + WriteInt(-1), m))
    else
      var m' :- Swizzle(m, c);
      var s := m'.serialized.value;
      Ok((WriteBoolean(false) + WriteInt(|s|) + s, m'))
  }

  /** `read(in)`: a streamable is read with the generic reader; otherwise a
      length of `-1` leaves the message as it is, a negative one is a
      NegativeArraySizeException, and anything else is the number of bytes
      that follow, which are kept and deserialized into the object. */
  function Read(m: ObjMessage, input: seq<byte>, c: ObjCodec): (r: Result<(ObjMessage, seq<byte>)>)
    ensures r.Ok? ==> r.value.0.env == m.env
  {
    var (streamable, rest) :- ReadBoolean(input);
    if streamable then
      var (o, rest') :- c.readGeneric(rest);
      Ok((m.(obj := o), rest'))
    else
      var (len, rest') :- ReadInt(rest);
      if len == -1 then Ok((m, rest'))
      else if len < 0 then Throws(NegativeArraySize)
      else
        var (bytes, rest'') :- ReadFully(rest', len);
        var o := c.fromBytes(bytes);
        if o.None? then Throws(Marshalling)
        else Ok((m.(serialized := Some(bytes), obj := o), rest''))
  }

  /** `copy(copy_buffer, copy_headers)`: the envelope carries over and, with
      `copyBuffer`, the object itself (shared, not cloned); the copy has not
      serialized anything yet. */
  function Copy(m: ObjMessage, copyBuffer: bool, copyHeaders: bool): (r: ObjMessage)
    ensures r.env.dest == m.env.dest && r.env.src == m.env.src
    ensures r.env.flags == m.env.flags && r.env.transientFlags == m.env.transientFlags
    ensures r.obj == if copyBuffer then m.obj else None
    ensures r.serialized.None? && Valid(r)
  {
    ObjMessage(CopyEnvelope(m.env, copyHeaders), if copyBuffer then m.obj else None, None)
  }

  // ------------------------------------------------------------ properties

  /** `swizzle()` is idempotent: once it has succeeded, calling it again
      changes nothing; and it keeps the cache consistent with the object. */
  lemma SwizzleIdempotent(m: ObjMessage, c: ObjCodec)
    requires Sound(c) && Consistent(m, c) && Swizzle(m, c).Ok?
    ensures Swizzle(Swizzle(m, c).value, c) == Swizzle(m, c)
    ensures m.obj.Some? ==> !m.obj.value.sizeStreamable ==>
              Consistent(Swizzle(m, c).value, c) && (Valid(m) ==> Valid(Swizzle(m, c).value))
  {
  }

  /** The length `getLength()` reports is stable: asking again on the
      message it leaves gives the same length and changes nothing more. */
  lemma GetLengthCached(m: ObjMessage, c: ObjCodec)
    requires GetLength(m, c).Ok?
    ensures var (n, m') := GetLength(m, c).value;
            GetLength(m', c) == Ok((n, m'))
  {
  }

  /** `objSize()` counts exactly the bytes `write` emits, and both leave the
      message in the same state. */
  lemma ObjSizeIsExact(m: ObjMessage, c: ObjCodec)
    requires Sound(c)
    ensures ObjSize(m, c).Ok? <==> Write(m, c).Ok?
    ensures Write(m, c).Ok? ==>
              ObjSize(m, c).value.0 == |Write(m, c).value.0| && ObjSize(m, c).value.1 == Write(m, c).value.1
  {
  }

  /** What `write` emits reads back into a fresh message as the same object,
      leaving what follows; no object reads back as no object.  A
      serializable object arrives with its bytes already cached. */
  lemma RoundTrip(m: ObjMessage, c: ObjCodec, env: Envelope, rest: seq<byte>)
    requires Sound(c) && Valid(m) && Consistent(m, c) && Write(m, c).Ok?
    ensures var r := Read(ObjMessage(env, None, None), Write(m, c).value.0 + rest, c);
            && r.Ok? && r.value.1 == rest && r.value.0.obj == m.obj && r.value.0.env == env
            && Consistent(r.value.0, c) && Valid(r.value.0)
            && (m.obj.Some? && !m.obj.value.sizeStreamable ==>
                  r.value.0.serialized == Write(m, c).value.1.serialized)
  {
    if m.obj.None? {
      NoObjectRoundTrip(m, c, env, rest);
    } else if m.obj.value.sizeStreamable {
      StreamableRoundTrip(m, c, env, rest);
    } else {
      SerializedRoundTrip(m, c, env, rest);
    }
  }

  lemma NoObjectRoundTrip(m: ObjMessage, c: ObjCodec, env: Envelope, rest: seq<byte>)
    requires m.obj.None?
    ensures Read(ObjMessage(env, None, None), Write(m, c).value.0 + rest, c) == Ok((ObjMessage(env, None, None), rest))
  {
    assert Write(m, c).value.0 + rest == WriteBoolean(false) + (WriteInt(-1) + rest);
    ReadWriteBoolean(false, WriteInt(-1) + rest);
    ReadWriteInt(-1, rest);
  }

  lemma StreamableRoundTrip(m: ObjMessage, c: ObjCodec, env: Envelope, rest: seq<byte>)
    requires Sound(c) && m.obj.Some? && m.obj.value.sizeStreamable
    ensures Read(ObjMessage(env, None, None), Write(m, c).value.0 + rest, c) == Ok((ObjMessage(env, m.obj, None), rest))
  {
    var o := m.obj.value;
    assert Write(m, c).value.0 + rest == WriteBoolean(true) + (c.writeGeneric(o) + rest);
    ReadWriteBoolean(true, c.writeGeneric(o) + rest);
  }

  lemma SerializedRoundTrip(m: ObjMessage, c: ObjCodec, env: Envelope, rest: seq<byte>)
    requires Sound(c) && Valid(m) && Consistent(m, c) && Write(m, c).Ok?
    requires m.obj.Some? && !m.obj.value.sizeStreamable
    ensures var s := Write(m, c).value.1.serialized;
            && s.Some? && |s.value| <= INT_MAX && c.fromBytes(s.value) == m.obj
            && Read(ObjMessage(env, None, None), Write(m, c).value.0 + rest, c) == Ok((ObjMessage(env, m.obj, s), rest))
  {
    var m' := Swizzle(m, c).value;
    var s := m'.serialized.value;
    assert Write(m, c).value.0 + rest == WriteBoolean(false) + (WriteInt(|s|) + (s + rest));
    ReadWriteBoolean(false, WriteInt(|s|) + (s + rest));
    ReadWriteInt(|s|, s + rest);
    assert (s + rest)[..|s|] == s;
    assert (s + rest)[|s|..] == rest;
  }

  /** A copy made with `copyBuffer` writes the same bytes as the original,
      since the shared object serializes the same way. */
  lemma CopyWritesTheSame(m: ObjMessage, c: ObjCodec, copyHeaders: bool)
    requires m.serialized.None?
    ensures Write(Copy(m, true, copyHeaders), c).Ok? == Write(m, c).Ok?
    ensures Write(m, c).Ok? ==> Write(Copy(m, true, copyHeaders), c).value.0 == Write(m, c).value.0
  {
  }
}
