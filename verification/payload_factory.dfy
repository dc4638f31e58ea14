/**
 * The payload type tags of Payload and the DefaultPayloadFactory registry
 * that maps a tag to the generator of a fresh payload of that type.
 */
module PayloadTypes {
  /** The built-in type tags (Payload.BYTE_ARRAY … Payload.INPUT_STREAM). */
  const BYTE_ARRAY: int := 1
  const COMPOSITE: int := 2
  const PARTIAL: int := 3
  const NIO_DIRECT: int := 4
  const NIO_HEAP: int := 5
  const OBJECT: int := 6
  const INT: int := 7
  const INPUT_STREAM: int := 8

  /** The built-in tags: the numbers 1 to 8, each used once. */
  const BuiltInTypes: seq<int> := [BYTE_ARRAY, COMPOSITE, PARTIAL, NIO_DIRECT, NIO_HEAP, OBJECT, INT, INPUT_STREAM]
}

module PayloadFactories {
  import opened JavaLang
  import opened PayloadTypes

  /** What a registered `Supplier` produces: a fresh ByteArrayPayload, a
      fresh CompositePayload, or a fresh instance of an application payload
      class, identified by `kind`. */
  datatype Generator = NewByteArray | NewComposite | NewCustom(kind: nat)

  /** The creator table, indexed by type tag; `None` is an empty slot. */
  datatype Factory = Factory(creators: seq<Option<Generator>>)

  /** The table has `Byte.MAX_VALUE` slots, so the valid indices are 0..126. */
  const TABLE_SIZE: nat := 127

  /** Tags up to and including MIN_TYPE are reserved for the library. */
  const MIN_TYPE: int := 32

  /** `new DefaultPayloadFactory()`: creators for COMPOSITE and BYTE_ARRAY
      only. */
  function Default(): (f: Factory)
    ensures |f.creators| == TABLE_SIZE
    ensures forall t :: 0 <= t < TABLE_SIZE ==>
              f.creators[t] == if t == COMPOSITE then Some(NewComposite)
                               else if t == BYTE_ARRAY then Some(NewByteArray) else None
  {
    Factory(seq(TABLE_SIZE, t => if t == COMPOSITE then Some(NewComposite)
                                 else if t == BYTE_ARRAY then Some(NewByteArray) else None))
  }

  /** `create(type)`: the creator in slot `type`; an empty slot is an
      IllegalArgumentException, and a tag outside the table (a negative byte,
      or 127) indexes out of bounds before any check. */
  function Create(f: Factory, typ: int): (r: Result<Generator>)
    ensures r.Ok? <==> 0 <= typ < |f.creators| && f.creators[typ].Some?
    ensures r.Ok? ==> r.value == f.creators[typ].value
    ensures r.Throws? ==> r.ex == if 0 <= typ < |f.creators| then IllegalArgument else IndexOutOfBounds
  {
    if typ < 0 || typ >= |f.creators| then Throws(IndexOutOfBounds)
    else if f.creators[typ].None? then Throws(IllegalArgument)
    else Ok(f.creators[typ].value)
  }

  /** `register(type, generator)`: a null generator, a reserved tag (at most
      MIN_TYPE, negative bytes included) and a taken slot are refused, in that
      order; a tag past the table indexes out of bounds.  Success fills only
      slot `type`. */
  function Register(f: Factory, typ: int, gen: Option<Generator>): (r: Result<Factory>)
    ensures r.Ok? <==> gen.Some? && MIN_TYPE < typ < |f.creators| && f.creators[typ].None?
    ensures r.Ok? ==> r.value.creators == f.creators[typ := gen]
    ensures r.Throws? ==> r.ex == if gen.None? then NullPointer
                                 else if typ <= MIN_TYPE || typ < |f.creators| then IllegalArgument
                                 else IndexOutOfBounds
  {
    if gen.None? then Throws(NullPointer)
    else if typ <= MIN_TYPE then Throws(IllegalArgument)
    else if typ >= |f.creators| then Throws(IndexOutOfBounds)
    else if f.creators[typ].Some? then Throws(IllegalArgument)
    else Ok(Factory(f.creators[typ := gen]))
  }

  // ------------------------------------------------------------ properties

  /** A fresh factory knows exactly BYTE_ARRAY and COMPOSITE; any other byte
      tag fails, with an IllegalArgumentException inside the table and an
      index error at 127 and below 0. */
  lemma DefaultCreates(typ: int)
    requires IsByte(typ)
    ensures Create(Default(), typ).Ok? <==> typ == BYTE_ARRAY || typ == COMPOSITE
    ensures typ == BYTE_ARRAY ==> Create(Default(), typ) == Ok(NewByteArray)
    ensures typ == COMPOSITE ==> Create(Default(), typ) == Ok(NewComposite)
    ensures typ < 0 || typ == BYTE_MAX ==> Create(Default(), typ) == Throws(IndexOutOfBounds)
  {
  }

  /** After a successful `register`, `create` of that tag yields the new
      generator and every other tag behaves as before; a failed `register`
      leaves nothing to observe, and a taken tag keeps its creator. */
  lemma RegisterThenCreate(f: Factory, typ: int, gen: Generator, other: int)
    requires Register(f, typ, Some(gen)).Ok?
    ensures var g := Register(f, typ, Some(gen)).value;
            && Create(g, typ) == Ok(gen)
            && (other != typ ==> Create(g, other) == Create(f, other))
            && Register(g, typ, Some(gen)) == Throws(IllegalArgument)
  {
  }

  /** The reserved range is closed to applications, including the built-in
      tags, and 127 is not a usable tag even though it is a valid byte. */
  lemma ReservedAndOutOfTable(f: Factory, typ: int, gen: Generator)
    requires |f.creators| == TABLE_SIZE
    ensures typ <= MIN_TYPE ==> Register(f, typ, Some(gen)) == Throws(IllegalArgument)
    ensures Register(f, BYTE_MAX, Some(gen)) == Throws(IndexOutOfBounds)
    ensures Register(f, typ, None) == Throws(NullPointer)
  {
  }
}
