/**
 * The envelope every message variant shares (BaseMessage and Headers, whose
 * source is not part of this model): destination and source addresses, the
 * persistent and transient flags, and the header map.  Its wire bytes are an
 * opaque prefix in front of each variant's payload; only the way `copy`
 * treats it is modelled.
 */
module Envelopes {
  import opened JavaLang

  /** An address is opaque to the message layer. */
  datatype Address = Address(id: nat)

  /** One protocol header; opaque to the message layer. */
  datatype Header = Header(protocolId: int, state: nat)

  /** The header map.  `Headers.copy` is shallow: the copy holds the same
      header references, so as a value it equals the original. */
  datatype Headers = Headers(entries: seq<Header>)

  /** `createHeaders(Util.DEFAULT_HEADERS)`: a map with no headers yet. */
  const FreshHeaders: Headers := Headers([])

  datatype Envelope = Envelope(
    dest: Option<Address>,
    src: Option<Address>,
    flags: int,           // 16-bit persistent flags
    transientFlags: int,  // 8-bit process-local flags
    headers: Option<Headers>)

  /** The kinds of message the layer knows (`Message.getType()`); their
      numeric codes live in Message, which is not part of this model. */
  datatype MessageType = BytesMsg | NioMsg | EmptyMsg | ObjMsg | CompositeMsg | FragMsg | NioDirectMsg

  /** The envelope part of every variant's `copy(copy_buffer, copy_headers)`:
      addresses and both flag sets carry over; the headers are shared when
      `copyHeaders` is set and there are any, and start empty otherwise. */
  function CopyEnvelope(e: Envelope, copyHeaders: bool): (r: Envelope)
    ensures r.dest == e.dest && r.src == e.src
    ensures r.flags == e.flags && r.transientFlags == e.transientFlags
    ensures r.headers.Some?
    ensures r.headers == e.headers <==> (copyHeaders && e.headers.Some?) || e.headers == Some(FreshHeaders)
    ensures !copyHeaders ==> r.headers.value.entries == []
  {
    var h := if copyHeaders && e.headers != None then e.headers.value else FreshHeaders;
    e.(headers := Some(h))
  }

  /** Copying with headers is the identity on an envelope that has a header
      map, and copying again changes nothing more. */
  lemma CopyEnvelopeStable(e: Envelope, copyHeaders: bool)
    ensures e.headers.Some? ==> CopyEnvelope(e, true) == e
    ensures CopyEnvelope(CopyEnvelope(e, copyHeaders), copyHeaders) == CopyEnvelope(e, copyHeaders)
  {
  }
}
