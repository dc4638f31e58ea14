/**
 * FragHeader: the header FRAG4 puts on every fragment, with the id of the
 * fragmented message, the fragment's number, the number of fragments and
 * whether the reassembled bytes must be turned back into a payload.  The
 * numbers go through Bits' variable-length encoders, which are not part of
 * this model: they are the `BitsCodec` parameter, and the properties below
 * hold for any encoders that read back what they write and report their
 * sizes exactly.
 */
module FragHeaders {
  import opened JavaLang
  import opened Wire

  datatype FragHeader = FragHeader(id: int, fragId: int, numFrags: int, needsDeserialization: bool)

  /** `Bits.writeLong`/`writeInt`, their readers and `Bits.size`. */
  datatype BitsCodec = BitsCodec(
    writeLong: int -> seq<byte>,
    readLong: seq<byte> -> Result<(int, seq<byte>)>,
    sizeLong: int -> int,
    writeInt: int -> seq<byte>,
    readInt: seq<byte> -> Result<(int, seq<byte>)>,
    sizeInt: int -> int)

  /** Encoders that read back what they wrote, leaving what follows, and
      whose sizes are exact. */
  ghost predicate Sound(b: BitsCodec)
  {
    && (forall v, rest :: IsLong(v) ==> b.readLong(b.writeLong(v) + rest) == Ok((v, rest)))
    && (forall v :: IsLong(v) ==> b.sizeLong(v) == |b.writeLong(v)|)
    && (forall v, rest :: IsInt(v) ==> b.readInt(b.writeInt(v) + rest) == Ok((v, rest)))
    && (forall v :: IsInt(v) ==> b.sizeInt(v) == |b.writeInt(v)|)
  }

  /** The fields as Java declares them: a long and two ints. */
  predicate JavaFields(h: FragHeader)
  {
    IsLong(h.id) && IsInt(h.fragId) && IsInt(h.numFrags)
  }

  /** `getMagicId()`. */
  const MAGIC_ID: int := 52

  /** `new FragHeader()`, the instance a receiver reads into. */
  const Blank: FragHeader := FragHeader(0, 0, 0, false)

  /** `new FragHeader(id, frag_id, num_frags)`: the flag starts cleared. */
  function Make(id: int, fragId: int, numFrags: int): (h: FragHeader)
    ensures h.id == id && h.fragId == fragId && h.numFrags == numFrags && !h.needsDeserialization
  {
    FragHeader(id, fragId, numFrags, false)
  }

  /** `needsDeserialization(flag)`: sets the flag and hands back the same
      header, every other field unchanged. */
  function SetNeedsDeserialization(h: FragHeader, flag: bool): (r: FragHeader)
    ensures r.needsDeserialization == flag
    ensures r.id == h.id && r.fragId == h.fragId && r.numFrags == h.numFrags
  {
    h.(needsDeserialization := flag)
  }

  /** `writeTo(out)`: id, fragment number, count, then the flag. */
  function WriteTo(h: FragHeader, b: BitsCodec): seq<byte>
  {
    b.writeLong(h.id) + b.writeInt(h.fragId) + b.writeInt(h.numFrags) + WriteBoolean(h.needsDeserialization)
  }

  /** `serializedSize()`. */
  function SerializedSize(h: FragHeader, b: BitsCodec): int
  {
    b.sizeLong(h.id) + b.sizeInt(h.fragId) + b.sizeInt(h.numFrags) + BYTE_SIZE
  }

  /** `readFrom(in)`: the same fields in the same order; every field of the
      receiver is overwritten, so the receiver's old state does not matter. */
  function ReadFrom(input: seq<byte>, b: BitsCodec): (r: Result<(FragHeader, seq<byte>)>)
  {
    var (id, r1) :- b.readLong(input);
    var (fragId, r2) :- b.readInt(r1);
    var (numFrags, r3) :- b.readInt(r2);
    var (flag, r4) :- ReadBoolean(r3);
    Ok((FragHeader(id, fragId, numFrags, flag), r4))
  }

  // ------------------------------------------------------------ properties

  /** `serializedSize()` counts exactly the bytes `writeTo` emits. */
  lemma SerializedSizeIsExact(h: FragHeader, b: BitsCodec)
    requires Sound(b) && JavaFields(h)
    ensures SerializedSize(h, b) == |WriteTo(h, b)|
  {
  }

  /** Reading what `writeTo` emitted gives the header back and leaves the
      bytes that follow. */
  lemma RoundTrip(h: FragHeader, b: BitsCodec, rest: seq<byte>)
    requires Sound(b) && JavaFields(h)
    ensures ReadFrom(WriteTo(h, b) + rest, b) == Ok((h, rest))
  {
    var l, f, n, z := b.writeLong(h.id), b.writeInt(h.fragId), b.writeInt(h.numFrags), WriteBoolean(h.needsDeserialization);
    assert WriteTo(h, b) + rest == l + (f + (n + (z + rest)));
    assert b.readLong(l + (f + (n + (z + rest)))) == Ok((h.id, f + (n + (z + rest))));
    assert b.readInt(f + (n + (z + rest))) == Ok((h.fragId, n + (z + rest)));
    assert b.readInt(n + (z + rest)) == Ok((h.numFrags, z + rest));
    ReadWriteBoolean(h.needsDeserialization, rest);
  }

  /** A header built with the three-argument constructor and then flagged
      reads back flagged. */
  lemma FlaggedHeaderRoundTrip(id: int, fragId: int, numFrags: int, b: BitsCodec)
    requires Sound(b) && IsLong(id) && IsInt(fragId) && IsInt(numFrags)
    ensures var h := SetNeedsDeserialization(Make(id, fragId, numFrags), true);
            ReadFrom(WriteTo(h, b), b) == Ok((FragHeader(id, fragId, numFrags, true), []))
  {
    var h := SetNeedsDeserialization(Make(id, fragId, numFrags), true);
    RoundTrip(h, b, []);
    assert WriteTo(h, b) + [] == WriteTo(h, b);
  }
}
