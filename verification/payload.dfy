/**
 * The Payload interface and its two built-in implementations as one tree:
 * a payload is a ByteArrayPayload, a CompositePayload holding further
 * payloads, or an instance of an application class registered with a
 * factory.  The operations every payload has (`getType`, `size`,
 * `serializedSize`, `writeTo`, `readFrom`, `getInput`, `copy`) dispatch over
 * the three; CompositePayload's versions walk its children in order.
 *
 * Application payload classes are user code: what their methods do is the
 * `CustomCodec` parameter.
 */
module Payloads {
  import opened JavaLang
  import opened Wire
  import opened ArrayDeques
  import opened PayloadTypes
  import PayloadFactories
  import BA = ByteArrayPayloads

  datatype Payload =
    | ByteArray(ba: BA.ByteArrayPayload)
    | Composite(items: Deque<Payload>, factory: Option<PayloadFactories.Factory>)
    | Custom(kind: nat, state: nat)

  /** The methods of the application payload classes, by class (`kind`) and
      instance state.  `decode` returns the new state and the number of bytes
      it consumed. */
  datatype CustomCodec = CustomCodec(
    typeOf: nat -> int,
    size: (nat, nat) -> int,
    serializedSize: (nat, nat) -> int,
    encode: (nat, nat) -> seq<byte>,
    decode: (nat, seq<byte>) -> Result<(nat, nat)>,
    input: (nat, nat) -> seq<byte>,
    copy: (nat, nat) -> nat)

  /** `new CompositePayload()`: no array yet, no factory. */
  const NewComposite: Payload := Composite(Unallocated(), None)

  function GetType(p: Payload, c: CustomCodec): int
  {
    match p
    case ByteArray(_) => BYTE_ARRAY
    case Composite(_, _) => COMPOSITE
    case Custom(k, _) => c.typeOf(k)
  }

  /** A fresh instance from a generator; state 0 stands for a freshly
      constructed application payload. */
  function Instantiate(g: PayloadFactories.Generator): Payload
  {
    match g
    case NewByteArray => ByteArray(BA.Empty)
    case NewComposite => NewComposite
    case NewCustom(k) => Custom(k, 0)
  }

  /** `Payload.create(type, factory)`: a non-null factory decides alone;
      without one, COMPOSITE and BYTE_ARRAY give fresh built-in payloads and
      every other tag gives null. */
  function Create(typ: int, factory: Option<PayloadFactories.Factory>): (r: Result<Option<Payload>>)
    ensures factory.Some? ==>
              r == match PayloadFactories.Create(factory.value, typ)
                   case Ok(g) => Ok(Some(Instantiate(g)))
                   case Throws(e) => Throws(e)
    ensures factory.None? ==> r.Ok?
    ensures factory.None? ==> (r.value.Some? <==> typ == BYTE_ARRAY || typ == COMPOSITE)
    ensures factory.None? && typ == BYTE_ARRAY ==> r.value == Some(ByteArray(BA.Empty))
    ensures factory.None? && typ == COMPOSITE ==> r.value == Some(NewComposite)
  {
    if factory.Some? then
      var g :- PayloadFactories.Create(factory.value, typ);
      Ok(Some(Instantiate(g)))
    else if typ == COMPOSITE then Ok(Some(NewComposite))
    else if typ == BYTE_ARRAY then Ok(Some(ByteArray(BA.Empty)))
    else Ok(None)
  }

  // The composite loops all run `for(i = 0; i < index && payloads != null; i++)`
  // and touch `payloads[i]`: a null element throws NullPointerException and
  // an index past the array throws ArrayIndexOutOfBoundsException.

  /** Whether the composite loop has run out at position `i`. */
  predicate LoopDone(p: Payload, i: nat)
    requires p.Composite?
  {
    i >= p.items.index || !p.items.present
  }

  /** `size()`: a byte array's length, and the sum over a composite's
      children. */
  function Size(p: Payload, c: CustomCodec): Result<int>
    decreases p, 1
  {
    match p
    case ByteArray(b) => Ok(BA.Size(b))
    case Custom(k, s) => Ok(c.size(k, s))
    case Composite(_, _) => SizeFrom(p, 0, c)
  }

  function SizeFrom(p: Payload, i: nat, c: CustomCodec): Result<int>
    requires p.Composite?
    decreases p, 0, |p.items.slots| - i
  {
    if LoopDone(p, i) then Ok(0)
    else if i >= |p.items.slots| then Throws(IndexOutOfBounds)
    else match p.items.slots[i]
      case None => Throws(NullPointer)
      case Some(ch) =>
        assert p.items.slots[i] in p.items.slots;
        var a :- Size(ch, c);
        var b :- SizeFrom(p, i + 1, c);
        Ok(a + b)
  }

  /** `serializedSize()`: four length bytes plus the view for a byte array;
      for a composite two count bytes plus, per child, its type byte and its
      own serialized size. */
  function SerializedSize(p: Payload, c: CustomCodec): Result<int>
    decreases p, 1
  {
    match p
    case ByteArray(b) => Ok(BA.SerializedSize(b))
    case Custom(k, s) => Ok(c.serializedSize(k, s))
    case Composite(_, _) =>
      var rest :- SerializedSizeFrom(p, 0, c);
      Ok(SHORT_SIZE + rest)
  }

  function SerializedSizeFrom(p: Payload, i: nat, c: CustomCodec): Result<int>
    requires p.Composite?
    decreases p, 0, |p.items.slots| - i
  {
    if LoopDone(p, i) then Ok(0)
    else if i >= |p.items.slots| then Throws(IndexOutOfBounds)
    else match p.items.slots[i]
      case None => Throws(NullPointer)
      case Some(ch) =>
        assert p.items.slots[i] in p.items.slots;
        var a :- SerializedSize(ch, c);
        var b :- SerializedSizeFrom(p, i + 1, c);
        Ok(a + BYTE_SIZE + b)
  }

  /** `writeTo(out)`: for a composite, the count as a short, then for each
      child its type byte followed by the child's own bytes. */
  function WriteTo(p: Payload, c: CustomCodec): Result<seq<byte>>
    decreases p, 1
  {
    match p
    case ByteArray(b) => BA.WriteTo(b)
    case Custom(k, s) => Ok(c.encode(k, s))
    case Composite(d, _) =>
      var rest :- WriteFrom(p, 0, c);
      Ok(WriteShort(d.index) + rest)
  }

  function WriteFrom(p: Payload, i: nat, c: CustomCodec): Result<seq<byte>>
    requires p.Composite?
    decreases p, 0, |p.items.slots| - i
  {
    if LoopDone(p, i) then Ok([])
    else if i >= |p.items.slots| then Throws(IndexOutOfBounds)
    else match p.items.slots[i]
      case None => Throws(NullPointer)
      case Some(ch) =>
        assert p.items.slots[i] in p.items.slots;
        var w :- WriteTo(ch, c);
        var rest :- WriteFrom(p, i + 1, c);
        Ok(WriteByte(GetType(ch, c)) + w + rest)
  }

  /** `Payload.serialize()`: the type byte, then what `writeTo` emits. */
  function Serialize(p: Payload, c: CustomCodec): (r: Result<seq<byte>>)
    ensures r.Ok? <==> WriteTo(p, c).Ok?
    ensures r.Ok? ==> |r.value| >= BYTE_SIZE && r.value[..BYTE_SIZE] == WriteByte(GetType(p, c)) && r.value[BYTE_SIZE..] == WriteTo(p, c).value
  {
    var w :- WriteTo(p, c);
    Ok(WriteByte(GetType(p, c)) + w)
  }

  /** The bytes `getInput()` yields.  For a composite, PayloadEnumeration
      hands SequenceInputStream each child's input in turn, and
      SequenceInputStream refuses a null one. */
  function GetInput(p: Payload, c: CustomCodec): Result<seq<byte>>
    decreases p, 1
  {
    match p
    case ByteArray(b) => BA.GetInput(b)
    case Custom(k, s) => Ok(c.input(k, s))
    case Composite(_, _) => InputFrom(p, 0, c)
  }

  function InputFrom(p: Payload, i: nat, c: CustomCodec): Result<seq<byte>>
    requires p.Composite?
    decreases p, 0, |p.items.slots| - i
  {
    if LoopDone(p, i) then Ok([])
    else if i >= |p.items.slots| then Throws(IndexOutOfBounds)
    else match p.items.slots[i]
      case None => Throws(NullPointer)
      case Some(ch) =>
        assert p.items.slots[i] in p.items.slots;
        var a :- GetInput(ch, c);
        var b :- InputFrom(p, i + 1, c);
        Ok(a + b)
  }

  /** `copy()`: a composite copies every non-null slot of its array, up to
      the capacity and not only up to `index`, into an array of the same
      capacity, keeps `index`, and drops the factory. */
  function Copy(p: Payload, c: CustomCodec): Result<Payload>
    decreases p, 1
  {
    match p
    case ByteArray(b) =>
      var b' :- BA.Copy(b);
      Ok(ByteArray(b'))
    case Custom(k, s) => Ok(Custom(k, c.copy(k, s)))
    case Composite(d, _) =>
      if !d.present then Ok(Composite(Deque(false, [], d.index), None))
      else
        var slots :- CopyFrom(p, 0, c);
        Ok(Composite(Deque(true, slots, d.index), None))
  }

  function CopyFrom(p: Payload, i: nat, c: CustomCodec): (r: Result<seq<Option<Payload>>>)
    requires p.Composite?
    ensures r.Ok? ==> |r.value| == |p.items.slots| - i || (i > |p.items.slots| && r.value == [])
    decreases p, 0, |p.items.slots| - i
  {
    if i >= |p.items.slots| then Ok([])
    else match p.items.slots[i]
      case None =>
        var rest :- CopyFrom(p, i + 1, c);
        Ok([None] + rest)
      case Some(ch) =>
        assert p.items.slots[i] in p.items.slots;
        var ch' :- Copy(ch, c);
        var rest :- CopyFrom(p, i + 1, c);
        Ok([Some(ch')] + rest)
  }

  /** `readFrom(in)` into the receiver `p`.  A composite reads a short count,
      allocates `max(count, 2)` slots, and per child reads a type byte, asks
      `Payload.create` with its own factory for an instance (null is a
      NullPointerException) and lets the child read itself. */
  function ReadFrom(p: Payload, input: seq<byte>, c: CustomCodec): (r: Result<(Payload, seq<byte>)>)
    ensures r.Ok? ==> |r.value.1| <= |input|
    decreases |input|, 1
  {
    match p
    case ByteArray(b) =>
      var (b', rest) :- BA.ReadFrom(b, input);
      Ok((ByteArray(b'), rest))
    case Custom(k, _) =>
      var (s, n) :- c.decode(k, input);
      if n > |input| then Throws(EndOfStream) else Ok((Custom(k, s), input[n..]))
    case Composite(_, f) =>
      var (count, rest) :- ReadShort(input);
      var (slots, rest') :- ReadChildren(f, count, 0, Nulls(Max(count, 2)), rest, c);
      Ok((Composite(Deque(true, slots, count), f), rest'))
  }

  function ReadChildren(f: Option<PayloadFactories.Factory>, count: int, i: nat, acc: seq<Option<Payload>>,
                        input: seq<byte>, c: CustomCodec): (r: Result<(seq<Option<Payload>>, seq<byte>)>)
    requires count <= |acc|
    ensures r.Ok? ==> |r.value.1| <= |input| && |r.value.0| == |acc|
    decreases |input|, 0
  {
    if i >= count then Ok((acc, input))
    else
      var (typ, rest) :- ReadByte(input);
      var child :- Create(typ, f);
      if child.None? then Throws(NullPointer)
      else
        var (ch, rest') :- ReadFrom(child.value, rest, c);
        ReadChildren(f, count, i + 1, acc[i := Some(ch)], rest', c)
  }

  // ------------------------------------------------------------ properties

  /** A default factory creates the same fresh payloads as no factory at
      all; on any other byte tag no factory gives null where the default
      factory throws. */
  lemma CreateWithDefaultFactory(typ: int)
    requires IsByte(typ)
    ensures typ == BYTE_ARRAY || typ == COMPOSITE ==>
              Create(typ, Some(PayloadFactories.Default())) == Create(typ, None)
    ensures typ != BYTE_ARRAY && typ != COMPOSITE ==>
              Create(typ, None) == Ok(None) && Create(typ, Some(PayloadFactories.Default())).Throws?
  {
    PayloadFactories.DefaultCreates(typ);
  }

  /** Slot `j` of a composite's copy, from position `i` on: a null stays
      null and a payload is replaced by its copy. */
  lemma {:induction false} CopyFromAt(p: Payload, c: CustomCodec, i: nat, j: nat)
    requires p.Composite? && CopyFrom(p, i, c).Ok? && i <= j < |p.items.slots|
    ensures p.items.slots[j].Some? ==> Copy(p.items.slots[j].value, c).Ok?
    ensures CopyFrom(p, i, c).value[j - i] ==
              if p.items.slots[j].None? then None else Some(Copy(p.items.slots[j].value, c).value)
    decreases j - i
  {
    if i < j {
      CopyFromAt(p, c, i + 1, j);
    }
  }

  /** `copy()` of a composite keeps its count and capacity, copies each
      element in place, leaves the null slots null, and drops the factory. */
  lemma CopyKeepsShape(p: Payload, c: CustomCodec)
    requires p.Composite? && Valid(p.items) && Copy(p, c).Ok?
    ensures var q := Copy(p, c).value;
            && q.Composite? && q.factory == None && Valid(q.items)
            && q.items.index == p.items.index && Capacity(q.items) == Capacity(p.items)
            && forall i :: 0 <= i < p.items.index ==>
                 Copy(p.items.slots[i].value, c).Ok? && q.items.slots[i] == Some(Copy(p.items.slots[i].value, c).value)
  {
    var q := Copy(p, c).value;
    if p.items.present {
      forall i | 0 <= i < |p.items.slots|
        ensures p.items.slots[i].Some? ==> Copy(p.items.slots[i].value, c).Ok?
        ensures q.items.slots[i] == if p.items.slots[i].None? then None else Some(Copy(p.items.slots[i].value, c).value)
      {
        CopyFromAt(p, c, 0, i);
      }
    }
  }
}
