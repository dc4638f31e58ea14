/**
 * EmptyMessage: a message that is only its envelope.  Every payload accessor
 * answers "nothing" and every payload setter throws
 * UnsupportedOperationException.
 */
module EmptyMessages {
  import opened JavaLang
  import opened Wire
  import opened Envelopes

  datatype EmptyMessage = EmptyMessage(env: Envelope)

  function GetType(m: EmptyMessage): MessageType { EmptyMsg }

  predicate HasPayload(m: EmptyMessage) { false }

  predicate HasArray(m: EmptyMessage) { false }

  /** `getArray()` returns null rather than throwing. */
  function GetArray(m: EmptyMessage): Option<seq<byte>> { None }

  function GetOffset(m: EmptyMessage): int { 0 }

  function GetLength(m: EmptyMessage): int { 0 }

  /** `setArray(byte[], int, int)` and `setArray(ByteArray)`. */
  function SetArray(m: EmptyMessage, b: Option<seq<byte>>, off: int, len: int): (r: Result<EmptyMessage>)
    ensures r == Throws(UnsupportedOperation)
  {
    Throws(UnsupportedOperation)
  }

  /** `setObject(obj)`; objects are opaque here. */
  function SetObject(m: EmptyMessage, obj: Option<nat>): (r: Result<EmptyMessage>)
    ensures r == Throws(UnsupportedOperation)
  {
    Throws(UnsupportedOperation)
  }

  function GetObject(m: EmptyMessage): (r: Result<Option<nat>>)
    ensures r == Throws(UnsupportedOperation)
  {
    Throws(UnsupportedOperation)
  }

  /** `copy(copy_buffer, copy_headers)`: there is no buffer to copy, so only
      the envelope carries over; the headers are shared iff `copyHeaders` is
      set and there are any. */
  function Copy(m: EmptyMessage, copyBuffer: bool, copyHeaders: bool): (r: EmptyMessage)
    ensures r.env.dest == m.env.dest && r.env.src == m.env.src
    ensures r.env.flags == m.env.flags && r.env.transientFlags == m.env.transientFlags
    ensures copyHeaders && m.env.headers.Some? ==> r.env.headers == m.env.headers
    ensures !(copyHeaders && m.env.headers.Some?) ==> r.env.headers == Some(FreshHeaders)
  {
    EmptyMessage(CopyEnvelope(m.env, copyHeaders))
  }

  /** A copy has no payload whatever `copyBuffer` says, and copying a copy
      changes nothing more. */
  lemma CopyIgnoresBuffer(m: EmptyMessage, copyHeaders: bool)
    ensures Copy(m, true, copyHeaders) == Copy(m, false, copyHeaders)
    ensures Copy(Copy(m, true, copyHeaders), true, copyHeaders) == Copy(m, true, copyHeaders)
    ensures GetLength(Copy(m, true, copyHeaders)) == 0 && !HasPayload(Copy(m, true, copyHeaders))
  {
    CopyEnvelopeStable(m.env, copyHeaders);
  }
}
