/**
 * CompositePayload: an ordered, array-backed sequence of payloads with adds
 * and removes at either end, serialized as a short count followed by
 * `(type byte, child)` pairs.  The operations that read or write the tree
 * live in Payloads; this module has the constructors, the deque operations,
 * and what is proved about the tree.
 */
module CompositePayloads {
  import opened JavaLang
  import opened Wire
  import opened ArrayDeques
  import opened PayloadTypes
  import PayloadFactories
  import BA = ByteArrayPayloads
  import opened Payloads

  /** `new CompositePayload(capacity)`. */
  function WithCapacity(capacity: int): (r: Result<Payload>)
    ensures r.Ok? <==> capacity >= 0
    ensures r.Ok? ==> r.value.Composite? && Valid(r.value.items) && Elements(r.value.items) == []
                      && Capacity(r.value.items) == capacity && r.value.factory == None
  {
    if capacity < 0 then Throws(NegativeArraySize)
    else Ok(Composite(Deque(true, Nulls(capacity), 0), None))
  }

  /** `new CompositePayload(Payload... payloads)`: a null or empty argument
      gives an empty composite of capacity 2; otherwise every element must be
      non-null and the array is adopted as it is, full. */
  function OfPayloads(arr: Option<seq<Option<Payload>>>): (r: Result<Payload>)
    ensures r.Ok? <==> arr.None? || forall i :: 0 <= i < |arr.value| ==> arr.value[i].Some?
    ensures r.Throws? ==> r.ex == IllegalArgument
    ensures r.Ok? ==> r.value.Composite? && Valid(r.value.items) && r.value.factory == None
    ensures r.Ok? && (arr.None? || |arr.value| == 0) ==> r.value.items == Deque(true, Nulls(2), 0)
    ensures r.Ok? && arr.Some? && |arr.value| > 0 ==>
              r.value.items.slots == arr.value && r.value.items.index == |arr.value|
              && forall i :: 0 <= i < |arr.value| ==> arr.value[i] == Some(Elements(r.value.items)[i])
  {
    if arr.Some? && |arr.value| > 0 then
      if exists i :: 0 <= i < |arr.value| && arr.value[i].None? then Throws(IllegalArgument)
      else Ok(Composite(Deque(true, arr.value, |arr.value|), None))
    else Ok(Composite(Deque(true, Nulls(2), 0), None))
  }

  /** `numPayloads()`. */
  function NumPayloads(p: Payload): int
    requires p.Composite?
  {
    p.items.index
  }

  /** `add(pl)`: null is refused before anything changes; otherwise the
      payload is stored after the others. */
  function Add(p: Payload, x: Option<Payload>): (r: Result<Payload>)
    requires p.Composite?
    ensures x.None? ==> r == Throws(NullPointer)
    ensures r.Ok? ==> r.value.Composite? && r.value.factory == p.factory
    ensures x.Some? && Valid(p.items) ==>
              && r.Ok? && Valid(r.value.items)
              && Elements(r.value.items) == Elements(p.items) + [x.value]
              && Capacity(r.value.items) == if p.items.index < Capacity(p.items) then Capacity(p.items) else p.items.index + 1
  {
    if x.None? then Throws(NullPointer)
    else
      var d :- Store(p.items, x);
      if Valid(p.items) then StoreAppends(p.items, x.value); Ok(p.(items := d)) else Ok(p.(items := d))
  }

  /** `addAtHead(pl)`: null is refused first; otherwise the payload goes to
      position 0 and the others move up one place. */
  function AddAtHead(p: Payload, x: Option<Payload>): (r: Result<Payload>)
    requires p.Composite?
    ensures x.None? ==> r == Throws(NullPointer)
    ensures r.Ok? ==> r.value.Composite? && r.value.factory == p.factory
    ensures x.Some? && Valid(p.items) ==>
              && r.Ok? && Valid(r.value.items)
              && Elements(r.value.items) == [x.value] + Elements(p.items)
  {
    if x.None? then Throws(NullPointer)
    else
      var d :- StoreAtHead(p.items, x.value);
      if Valid(p.items) then StoreAtHeadPrepends(p.items, x.value); Ok(p.(items := d)) else Ok(p.(items := d))
  }

  /** `remove()`: the last payload, or null with nothing changed when there
      is none. */
  function Remove(p: Payload): (r: Result<(Option<Payload>, Payload)>)
    requires p.Composite?
    ensures Valid(p.items) ==>
              && r.Ok? && r.value.1.Composite? && Valid(r.value.1.items)
              && (p.items.index == 0 ==> r.value == (None, p))
              && (p.items.index > 0 ==>
                    r.value.0 == Some(Elements(p.items)[p.items.index - 1])
                    && Elements(r.value.1.items) == Elements(p.items)[..p.items.index - 1])
  {
    var (x, d) :- RemoveLast(p.items);
    if Valid(p.items) then RemoveLastTakesLast(p.items); Ok((x, p.(items := d))) else Ok((x, p.(items := d)))
  }

  /** `removeAtHead()`: the first payload, the rest moved down; null with
      nothing changed when there is none. */
  function RemoveAtHead(p: Payload): (r: Result<(Option<Payload>, Payload)>)
    requires p.Composite?
    ensures Valid(p.items) ==>
              && r.Ok? && r.value.1.Composite? && Valid(r.value.1.items)
              && (p.items.index == 0 ==> r.value == (None, p))
              && (p.items.index > 0 ==>
                    r.value.0 == Some(Elements(p.items)[0])
                    && Elements(r.value.1.items) == Elements(p.items)[1..])
  {
    var (x, d) :- RemoveFirst(p.items);
    if Valid(p.items) then RemoveFirstTakesFirst(p.items); Ok((x, p.(items := d))) else Ok((x, p.(items := d)))
  }

  // ----------------------------------------------------- well-formed trees

  /** The trees the public operations build: composites keep the deque
      invariant, byte arrays are views the corrected `set` admits, and
      application payloads report their serialized size exactly. Nothing
      bounds a composite's count: `add` grows the array without limit. */
  predicate Wf(p: Payload, c: CustomCodec)
    decreases p, 1
  {
    match p
    case ByteArray(b) => BA.Valid(b)
    case Custom(k, s) => c.serializedSize(k, s) == |c.encode(k, s)|
    case Composite(d, _) => Valid(d) && WfFrom(p, 0, c)
  }

  predicate WfFrom(p: Payload, i: nat, c: CustomCodec)
    requires p.Composite?
    decreases p, 0, |p.items.slots| - i
  {
    i >= p.items.index || i >= |p.items.slots| ||
      (p.items.slots[i].Some? &&
       (assert p.items.slots[i] in p.items.slots; Wf(p.items.slots[i].value, c)) &&
       WfFrom(p, i + 1, c))
  }

  /** Trees made of the built-in payloads only, which a receiver without a
      factory can decode. */
  predicate BuiltIn(p: Payload)
    decreases p, 1
  {
    match p
    case ByteArray(_) => true
    case Custom(_, _) => false
    case Composite(_, _) => BuiltInFrom(p, 0)
  }

  predicate BuiltInFrom(p: Payload, i: nat)
    requires p.Composite?
    decreases p, 0, |p.items.slots| - i
  {
    i >= p.items.index || i >= |p.items.slots| ||
      (p.items.slots[i].Some? &&
       (assert p.items.slots[i] in p.items.slots; BuiltIn(p.items.slots[i].value)) &&
       BuiltInFrom(p, i + 1))
  }

  /** Trees whose every composite has at most 32767 children, the counts
      `writeShort` carries unchanged. Only these read back as written. */
  predicate ShortCounts(p: Payload)
    decreases p, 1
  {
    match p
    case ByteArray(_) => true
    case Custom(_, _) => true
    case Composite(d, _) => d.index <= SHORT_MAX && ShortCountsFrom(p, 0)
  }

  predicate ShortCountsFrom(p: Payload, i: nat)
    requires p.Composite?
    decreases p, 0, |p.items.slots| - i
  {
    i >= p.items.index || i >= |p.items.slots| ||
      (p.items.slots[i].Some? &&
       (assert p.items.slots[i] in p.items.slots; ShortCounts(p.items.slots[i].value)) &&
       ShortCountsFrom(p, i + 1))
  }

  /** The fresh instance a receiver without a factory reads a payload into. */
  function Fresh(p: Payload): Payload
  {
    match p
    case ByteArray(_) => ByteArray(BA.Empty)
    case Composite(_, _) => NewComposite
    case Custom(_, _) => p
  }

  /** What a payload looks like after a trip over the wire: views copied out
      to offset 0 (an empty one without an array), composites at capacity
      `max(count, 2)` and without a factory. */
  function Canon(p: Payload): Payload
    decreases p, 1
  {
    match p
    case ByteArray(b) =>
      ByteArray(if b.length > 0 then BA.ByteArrayPayload(BA.View(b), 0, b.length) else BA.Empty)
    case Custom(_, _) => p
    case Composite(d, _) =>
      var n := Max(d.index, 0);
      Composite(Deque(true, CanonFrom(p, 0) + Nulls(Max(n, 2) - n), d.index), None)
  }

  function CanonFrom(p: Payload, i: nat): (r: seq<Option<Payload>>)
    requires p.Composite?
    ensures i <= p.items.index <= |p.items.slots| && p.items.present ==> |r| == p.items.index - i
    decreases p, 0, |p.items.slots| - i
  {
    if i >= p.items.index || i >= |p.items.slots| || !p.items.present then []
    else match p.items.slots[i]
      case None => [None] + CanonFrom(p, i + 1)
      case Some(ch) =>
        assert p.items.slots[i] in p.items.slots;
        [Some(Canon(ch))] + CanonFrom(p, i + 1)
  }

  lemma {:induction false} CanonFromAt(p: Payload, i: nat, j: nat)
    requires p.Composite? && Valid(p.items) && i <= j < p.items.index
    ensures |CanonFrom(p, i)| == p.items.index - i
    ensures CanonFrom(p, i)[j - i] == Some(Canon(p.items.slots[j].value))
    decreases j - i
  {
    if i < j {
      CanonFromAt(p, i + 1, j);
    }
  }

  // ------------------------------------------------------------ properties

  /** `serializedSize()` is the exact number of bytes `writeTo` emits, for
      every well-formed tree. */
  lemma {:induction false} SerializedSizeIsExact(p: Payload, c: CustomCodec)
    requires Wf(p, c)
    ensures WriteTo(p, c).Ok? && SerializedSize(p, c) == Ok(|WriteTo(p, c).value|)
    decreases p, 1
  {
    match p
    case ByteArray(b) => BA.SerializedSizeIsExact(b);
    case Custom(_, _) =>
    case Composite(_, _) => SerializedSizeFromIsExact(p, 0, c);
  }

  lemma {:induction false} SerializedSizeFromIsExact(p: Payload, i: nat, c: CustomCodec)
    requires p.Composite? && Valid(p.items) && WfFrom(p, i, c)
    ensures WriteFrom(p, i, c).Ok? && SerializedSizeFrom(p, i, c) == Ok(|WriteFrom(p, i, c).value|)
    decreases p, 0, |p.items.slots| - i
  {
    if !LoopDone(p, i) {
      var ch := p.items.slots[i].value;
      assert p.items.slots[i] in p.items.slots;
      SerializedSizeIsExact(ch, c);
      SerializedSizeFromIsExact(p, i + 1, c);
    }
  }

  /** Reading what `writeTo` emitted into a fresh instance consumes exactly
      those bytes and yields the canonical form of the original. */
  lemma {:induction false} RoundTrip(p: Payload, c: CustomCodec, rest: seq<byte>)
    requires Wf(p, c) && BuiltIn(p) && ShortCounts(p)
    ensures WriteTo(p, c).Ok?
    ensures ReadFrom(Fresh(p), WriteTo(p, c).value + rest, c) == Ok((Canon(p), rest))
    decreases p, 1
  {
    SerializedSizeIsExact(p, c);
    match p
    case ByteArray(b) =>
      BA.RoundTrip(b, rest);
    case Composite(d, _) =>
      RoundTripFrom(p, c, 0, Nulls(Max(d.index, 2)), rest);
      CompositeReadBack(p, c, rest);
  }

  /** The composite case of the round trip, given the children's loop. */
  lemma CompositeReadBack(p: Payload, c: CustomCodec, rest: seq<byte>)
    requires p.Composite? && Valid(p.items) && p.items.index <= SHORT_MAX && WriteFrom(p, 0, c).Ok?
    requires var acc := Nulls(Max(p.items.index, 2));
             ReadChildren(None, p.items.index, 0, acc, WriteFrom(p, 0, c).value + rest, c)
             == Ok((acc[..0] + CanonFrom(p, 0) + acc[p.items.index..], rest))
    ensures WriteTo(p, c).Ok?
    ensures ReadFrom(Fresh(p), WriteTo(p, c).value + rest, c) == Ok((Canon(p), rest))
  {
    var n := p.items.index;
    var body := WriteFrom(p, 0, c).value;
    NullsSplice(CanonFrom(p, 0), n);
    ReadSide(p, c, body, rest);
    WriteToComposite(p, c, body);
    WriteSide(p, c, WriteShort(n), body, rest);
  }

  /** A fresh composite reads the count, then the children into the slots of
      a fresh array: the canonical form. */
  lemma ReadSide(p: Payload, c: CustomCodec, body: seq<byte>, rest: seq<byte>)
    requires p.Composite? && 0 <= p.items.index <= SHORT_MAX
    requires var n := p.items.index;
             ReadChildren(None, n, 0, Nulls(Max(n, 2)), body + rest, c)
             == Ok((CanonFrom(p, 0) + Nulls(Max(n, 2) - n), rest))
    ensures ReadFrom(Fresh(p), WriteShort(p.items.index) + (body + rest), c) == Ok((Canon(p), rest))
  {
    var n := p.items.index;
    var slots := CanonFrom(p, 0) + Nulls(Max(n, 2) - n);
    ReadWriteShort(n, body + rest);
    ReadFreshComposite(p, WriteShort(n) + (body + rest), c, n, body + rest, slots, rest);
    CanonComposite(p, slots);
  }

  /** What a payload writes, a header then a body, reads back as the header
      followed by the body and whatever follows. */
  lemma WriteSide(p: Payload, c: CustomCodec, header: seq<byte>, body: seq<byte>, rest: seq<byte>)
    requires WriteTo(p, c) == Ok(header + body)
    requires ReadFrom(Fresh(p), header + (body + rest), c) == Ok((Canon(p), rest))
    ensures WriteTo(p, c).Ok?
    ensures ReadFrom(Fresh(p), WriteTo(p, c).value + rest, c) == Ok((Canon(p), rest))
  {
    ConcatAssoc(header, body, rest);
  }

  /** A composite writes its count, then its children. */
  lemma WriteToComposite(p: Payload, c: CustomCodec, body: seq<byte>)
    requires p.Composite? && WriteFrom(p, 0, c) == Ok(body)
    ensures WriteTo(p, c) == Ok(WriteShort(p.items.index) + body)
  {
  }

  /** The canonical composite: the canonical children, padded with nulls to
      the capacity a receiver allocates. */
  lemma CanonComposite(p: Payload, slots: seq<Option<Payload>>)
    requires p.Composite? && p.items.index >= 0
    requires slots == CanonFrom(p, 0) + Nulls(Max(p.items.index, 2) - p.items.index)
    ensures Canon(p) == Composite(Deque(true, slots, p.items.index), None)
  {
  }

  /** `readFrom` on a fresh composite: the count, then the children into an
      array of `max(count, 2)`. */
  lemma ReadFreshComposite(p: Payload, input: seq<byte>, c: CustomCodec, n: int, body: seq<byte>,
                           slots: seq<Option<Payload>>, rest: seq<byte>)
    requires p.Composite?
    requires ReadShort(input) == Ok((n, body))
    requires ReadChildren(None, n, 0, Nulls(Max(n, 2)), body, c) == Ok((slots, rest))
    ensures ReadFrom(Fresh(p), input, c) == Ok((Composite(Deque(true, slots, n), None), rest))
  {
    assert Fresh(p) == NewComposite;
  }

  /** Filling the first `n` slots of a fresh array of `max(n, 2)`. */
  lemma NullsSplice<T>(xs: seq<Option<T>>, n: nat)
    requires |xs| == n
    ensures Nulls<T>(Max(n, 2))[..0] + xs + Nulls<T>(Max(n, 2))[n..] == xs + Nulls<T>(Max(n, 2) - n)
  {
    var acc := Nulls<T>(Max(n, 2));
    assert acc[..0] + xs == xs;
    assert acc[n..] == Nulls<T>(Max(n, 2) - n);
  }

  lemma {:induction false} RoundTripFrom(p: Payload, c: CustomCodec, i: nat, acc: seq<Option<Payload>>, rest: seq<byte>)
    requires p.Composite? && Valid(p.items) && WfFrom(p, i, c) && BuiltInFrom(p, i) && ShortCountsFrom(p, i)
    requires i <= p.items.index <= |acc|
    ensures WriteFrom(p, i, c).Ok?
    ensures ReadChildren(None, p.items.index, i, acc, WriteFrom(p, i, c).value + rest, c)
            == Ok((acc[..i] + CanonFrom(p, i) + acc[p.items.index..], rest))
    decreases p, 0, |p.items.slots| - i
  {
    var n := p.items.index;
    if i == n {
      assert WriteFrom(p, i, c) == Ok([]);
      assert WriteFrom(p, i, c).value + rest == rest;
      assert acc[..i] + CanonFrom(p, i) + acc[n..] == acc;
    } else {
      var ch := p.items.slots[i].value;
      assert p.items.slots[i] in p.items.slots;
      WfStep(p, i, c);
      BuiltInStep(p, i);
      ShortCountsStep(p, i);
      SerializedSizeIsExact(ch, c);
      var acc' := acc[i := Some(Canon(ch))];
      RoundTripFrom(p, c, i + 1, acc', rest);
      var w := WriteTo(ch, c).value;
      var tail := WriteFrom(p, i + 1, c).value;
      WriteFromStep(p, i, c, ch);
      RoundTrip(ch, c, tail + rest);
      ReadChildStep(ch, c, n, i, acc, tail + rest);
      Regroup(WriteByte(GetType(ch, c)), w, tail, rest);
      assert CanonFrom(p, i) == [Some(Canon(ch))] + CanonFrom(p, i + 1);
      FillSlot(acc, i, n, Some(Canon(ch)), CanonFrom(p, i + 1));
    }
  }

  /** The well-formedness of a composite's tree from position `i` splits into
      that of child `i` and that of the rest. */
  lemma WfStep(p: Payload, i: nat, c: CustomCodec)
    requires p.Composite? && Valid(p.items) && WfFrom(p, i, c) && i < p.items.index
    ensures p.items.slots[i].Some? && p.items.slots[i] in p.items.slots
    ensures Wf(p.items.slots[i].value, c) && WfFrom(p, i + 1, c)
  {
  }

  lemma BuiltInStep(p: Payload, i: nat)
    requires p.Composite? && Valid(p.items) && BuiltInFrom(p, i) && i < p.items.index
    ensures BuiltIn(p.items.slots[i].value) && BuiltInFrom(p, i + 1)
  {
  }

  lemma ShortCountsStep(p: Payload, i: nat)
    requires p.Composite? && Valid(p.items) && ShortCountsFrom(p, i) && i < p.items.index
    ensures ShortCounts(p.items.slots[i].value) && ShortCountsFrom(p, i + 1)
  {
  }

  lemma FillSlot<T>(acc: seq<T>, i: nat, n: nat, x: T, t: seq<T>)
    requires i < n <= |acc|
    ensures acc[..i] + ([x] + t) + acc[n..] == acc[i := x][..i + 1] + t + acc[i := x][n..]
  {
    assert acc[i := x][..i + 1] == acc[..i] + [x];
    assert acc[i := x][n..] == acc[n..];
  }

  lemma Regroup(a: seq<byte>, b: seq<byte>, d: seq<byte>, e: seq<byte>)
    ensures a + b + d + e == a + (b + (d + e))
  {
  }

  /** One turn of the composite write loop. */
  lemma WriteFromStep(p: Payload, i: nat, c: CustomCodec, ch: Payload)
    requires p.Composite? && Valid(p.items) && i < p.items.index && p.items.slots[i] == Some(ch)
    requires WriteTo(ch, c).Ok? && WriteFrom(p, i + 1, c).Ok?
    ensures WriteFrom(p, i, c) == Ok(WriteByte(GetType(ch, c)) + WriteTo(ch, c).value + WriteFrom(p, i + 1, c).value)
  {
  }

  /** One turn of the composite read loop over a built-in child that reads
      back to its canonical form. */
  lemma ReadChildStep(ch: Payload, c: CustomCodec, n: int, i: nat, acc: seq<Option<Payload>>, cont: seq<byte>)
    requires BuiltIn(ch) && WriteTo(ch, c).Ok? && i < n <= |acc|
    requires ReadFrom(Fresh(ch), WriteTo(ch, c).value + cont, c) == Ok((Canon(ch), cont))
    ensures ReadChildren(None, n, i, acc, WriteByte(GetType(ch, c)) + (WriteTo(ch, c).value + cont), c)
            == ReadChildren(None, n, i + 1, acc[i := Some(Canon(ch))], cont, c)
  {
    var t := GetType(ch, c);
    ReadWriteByte(t, WriteTo(ch, c).value + cont);
    assert Create(t, None) == Ok(Some(Fresh(ch)));
  }

  // ------------------------------------------------- reference definitions

  /** The sum of the `size()` of a list of payloads, left to right; the
      first failing child decides the exception. */
  function SumSizes(xs: seq<Payload>, c: CustomCodec): Result<int>
  {
    if xs == [] then Ok(0)
    else
      var a :- Size(xs[0], c);
      var b :- SumSizes(xs[1..], c);
      Ok(a + b)
  }

  /** The concatenation of the inputs of a list of payloads, in order. */
  function Inputs(xs: seq<Payload>, c: CustomCodec): Result<seq<byte>>
  {
    if xs == [] then Ok([])
    else
      var a :- GetInput(xs[0], c);
      var b :- Inputs(xs[1..], c);
      Ok(a + b)
  }

  /** `size()` of a composite is the sum over its elements. */
  lemma {:induction false} SizeIsSum(p: Payload, c: CustomCodec, i: nat)
    requires p.Composite? && Valid(p.items) && i <= p.items.index
    ensures SizeFrom(p, i, c) == SumSizes(Elements(p.items)[i..], c)
    decreases p.items.index - i
  {
    if i < p.items.index {
      SizeIsSum(p, c, i + 1);
      assert Elements(p.items)[i..][1..] == Elements(p.items)[i + 1..];
    }
  }

  /** `getInput()` of a composite yields its elements' inputs one after the
      other. */
  lemma {:induction false} InputIsConcatenation(p: Payload, c: CustomCodec, i: nat)
    requires p.Composite? && Valid(p.items) && i <= p.items.index
    ensures InputFrom(p, i, c) == Inputs(Elements(p.items)[i..], c)
    decreases p.items.index - i
  {
    if i < p.items.index {
      InputIsConcatenation(p, c, i + 1);
      assert Elements(p.items)[i..][1..] == Elements(p.items)[i + 1..];
    }
  }

  lemma {:induction false} SumSizesAppend(xs: seq<Payload>, ys: seq<Payload>, c: CustomCodec)
    ensures SumSizes(xs + ys, c) == (var a :- SumSizes(xs, c); var b :- SumSizes(ys, c); Ok(a + b))
    decreases |xs|
  {
    if xs != [] {
      SumSizesAppend(xs[1..], ys, c);
      assert (xs + ys)[1..] == xs[1..] + ys;
    } else {
      assert xs + ys == ys;
    }
  }

  lemma {:induction false} InputsAppend(xs: seq<Payload>, ys: seq<Payload>, c: CustomCodec)
    ensures Inputs(xs + ys, c) == (var a :- Inputs(xs, c); var b :- Inputs(ys, c); Ok(a + b))
    decreases |xs|
  {
    if xs != [] {
      InputsAppend(xs[1..], ys, c);
      assert (xs + ys)[1..] == xs[1..] + ys;
      if GetInput(xs[0], c).Ok? && Inputs(xs[1..], c).Ok? && Inputs(ys, c).Ok? {
        var a, b, d := GetInput(xs[0], c).value, Inputs(xs[1..], c).value, Inputs(ys, c).value;
        assert a + (b + d) == (a + b) + d;
      }
    } else {
      assert xs + ys == ys;
      if Inputs(ys, c).Ok? {
        assert [] + Inputs(ys, c).value == Inputs(ys, c).value;
      }
    }
  }

  /** After `add(x)` the composite's size is its old size plus `x`'s, and its
      input continues with `x`'s input. */
  lemma AddExtendsSizeAndInput(p: Payload, x: Payload, c: CustomCodec)
    requires p.Composite? && Valid(p.items)
    ensures var q := Add(p, Some(x)).value;
            && Size(q, c) == (var a :- Size(p, c); var b :- Size(x, c); Ok(a + b))
            && GetInput(q, c) == (var a :- GetInput(p, c); var b :- GetInput(x, c); Ok(a + b))
  {
    AddExtendsSize(p, x, c);
    AddExtendsInput(p, x, c);
  }

  lemma AddExtendsSize(p: Payload, x: Payload, c: CustomCodec)
    requires p.Composite? && Valid(p.items)
    ensures Size(Add(p, Some(x)).value, c) == (var a :- Size(p, c); var b :- Size(x, c); Ok(a + b))
  {
    AppendedSize(p, Add(p, Some(x)).value, x, c);
  }

  lemma AddExtendsInput(p: Payload, x: Payload, c: CustomCodec)
    requires p.Composite? && Valid(p.items)
    ensures GetInput(Add(p, Some(x)).value, c) == (var a :- GetInput(p, c); var b :- GetInput(x, c); Ok(a + b))
  {
    AppendedInput(p, Add(p, Some(x)).value, x, c);
  }

  /** After `addAtHead(x)` the size is `x`'s plus the old one, and the input
      starts with `x`'s. */
  lemma AddAtHeadExtendsSizeAndInput(p: Payload, x: Payload, c: CustomCodec)
    requires p.Composite? && Valid(p.items)
    ensures var q := AddAtHead(p, Some(x)).value;
            && Size(q, c) == (var b :- Size(x, c); var a :- Size(p, c); Ok(b + a))
            && GetInput(q, c) == (var b :- GetInput(x, c); var a :- GetInput(p, c); Ok(b + a))
  {
    AddAtHeadExtendsSize(p, x, c);
    AddAtHeadExtendsInput(p, x, c);
  }

  lemma AddAtHeadExtendsSize(p: Payload, x: Payload, c: CustomCodec)
    requires p.Composite? && Valid(p.items)
    ensures Size(AddAtHead(p, Some(x)).value, c) == (var b :- Size(x, c); var a :- Size(p, c); Ok(b + a))
  {
    PrependedSize(p, AddAtHead(p, Some(x)).value, x, c);
  }

  lemma AddAtHeadExtendsInput(p: Payload, x: Payload, c: CustomCodec)
    requires p.Composite? && Valid(p.items)
    ensures GetInput(AddAtHead(p, Some(x)).value, c) == (var b :- GetInput(x, c); var a :- GetInput(p, c); Ok(b + a))
  {
    PrependedInput(p, AddAtHead(p, Some(x)).value, x, c);
  }

  /** A composite holding another's elements followed by `x`. */
  lemma AppendedSize(p: Payload, q: Payload, x: Payload, c: CustomCodec)
    requires p.Composite? && Valid(p.items) && q.Composite? && Valid(q.items)
    requires Elements(q.items) == Elements(p.items) + [x]
    ensures Size(q, c) == (var a :- Size(p, c); var b :- Size(x, c); Ok(a + b))
  {
    SizeIsTotal(p, c);
    SizeIsTotal(q, c);
    SumSizesAppend(Elements(p.items), [x], c);
    SumSizesOne(x, c);
  }

  lemma AppendedInput(p: Payload, q: Payload, x: Payload, c: CustomCodec)
    requires p.Composite? && Valid(p.items) && q.Composite? && Valid(q.items)
    requires Elements(q.items) == Elements(p.items) + [x]
    ensures GetInput(q, c) == (var a :- GetInput(p, c); var b :- GetInput(x, c); Ok(a + b))
  {
    InputIsTotal(p, c);
    InputIsTotal(q, c);
    InputsAppend(Elements(p.items), [x], c);
    InputsOne(x, c);
  }

  /** A composite holding `x` followed by another's elements. */
  lemma PrependedSize(p: Payload, q: Payload, x: Payload, c: CustomCodec)
    requires p.Composite? && Valid(p.items) && q.Composite? && Valid(q.items)
    requires Elements(q.items) == [x] + Elements(p.items)
    ensures Size(q, c) == (var b :- Size(x, c); var a :- Size(p, c); Ok(b + a))
  {
    SizeIsTotal(p, c);
    SizeIsTotal(q, c);
    SumSizesCons(x, Elements(p.items), c);
  }

  lemma SumSizesCons(x: Payload, xs: seq<Payload>, c: CustomCodec)
    ensures SumSizes([x] + xs, c) == (var b :- Size(x, c); var a :- SumSizes(xs, c); Ok(b + a))
  {
    assert ([x] + xs)[0] == x && ([x] + xs)[1..] == xs;
  }

  lemma PrependedInput(p: Payload, q: Payload, x: Payload, c: CustomCodec)
    requires p.Composite? && Valid(p.items) && q.Composite? && Valid(q.items)
    requires Elements(q.items) == [x] + Elements(p.items)
    ensures GetInput(q, c) == (var b :- GetInput(x, c); var a :- GetInput(p, c); Ok(b + a))
  {
    InputIsTotal(p, c);
    InputIsTotal(q, c);
    InputsAppend([x], Elements(p.items), c);
    InputsOne(x, c);
  }

  lemma SizeIsTotal(p: Payload, c: CustomCodec)
    requires p.Composite? && Valid(p.items)
    ensures Size(p, c) == SumSizes(Elements(p.items), c)
  {
    SizeIsSum(p, c, 0);
    assert Elements(p.items)[0..] == Elements(p.items);
  }

  lemma InputIsTotal(p: Payload, c: CustomCodec)
    requires p.Composite? && Valid(p.items)
    ensures GetInput(p, c) == Inputs(Elements(p.items), c)
  {
    InputIsConcatenation(p, c, 0);
    assert Elements(p.items)[0..] == Elements(p.items);
  }

  lemma SumSizesOne(x: Payload, c: CustomCodec)
    ensures SumSizes([x], c) == Size(x, c)
  {
    assert [x][1..] == [];
  }

  lemma InputsOne(x: Payload, c: CustomCodec)
    ensures Inputs([x], c) == GetInput(x, c)
  {
    assert [x][1..] == [];
    if GetInput(x, c).Ok? {
      assert GetInput(x, c).value + [] == GetInput(x, c).value;
    }
  }

  // ------------------------------------------------ the canonical form

  /** The form a payload is read back in has the original's type, size and
      serialized size, and writes the very same bytes. */
  lemma {:induction false} CanonKeeps(p: Payload, c: CustomCodec)
    requires Wf(p, c)
    ensures GetType(Canon(p), c) == GetType(p, c)
    ensures Size(Canon(p), c) == Size(p, c)
    ensures SerializedSize(Canon(p), c) == SerializedSize(p, c)
    ensures WriteTo(Canon(p), c) == WriteTo(p, c)
    decreases p, 1
  {
    match p
    case ByteArray(b) =>
      if b.length > 0 {
        var v := BA.View(b).value;
        assert v[0..b.length] == v;
      }
    case Custom(_, _) =>
    case Composite(_, _) => CanonFromKeeps(p, c, 0);
  }

  lemma {:induction false} CanonFromKeeps(p: Payload, c: CustomCodec, i: nat)
    requires p.Composite? && Valid(p.items) && WfFrom(p, i, c) && i <= p.items.index
    ensures Canon(p).Composite?
    ensures SizeFrom(Canon(p), i, c) == SizeFrom(p, i, c)
    ensures SerializedSizeFrom(Canon(p), i, c) == SerializedSizeFrom(p, i, c)
    ensures WriteFrom(Canon(p), i, c) == WriteFrom(p, i, c)
    decreases p, 0, |p.items.slots| - i
  {
    CanonSlots(p);
    if i < p.items.index {
      WfStep(p, i, c);
      var ch := p.items.slots[i].value;
      CanonKeeps(ch, c);
      CanonFromKeeps(p, c, i + 1);
      KeepsStep(p, Canon(p), i, c);
    }
  }

  /** Two composites whose child `i` and whose loops from `i + 1` agree on
      sizes and bytes agree on them from `i`. */
  lemma KeepsStep(p: Payload, q: Payload, i: nat, c: CustomCodec)
    requires p.Composite? && q.Composite? && p.items.present && q.items.present
    requires i < p.items.index == q.items.index && i < |p.items.slots| && i < |q.items.slots|
    requires p.items.slots[i].Some? && q.items.slots[i].Some?
    requires var a, b := p.items.slots[i].value, q.items.slots[i].value;
             && GetType(a, c) == GetType(b, c) && Size(a, c) == Size(b, c)
             && SerializedSize(a, c) == SerializedSize(b, c) && WriteTo(a, c) == WriteTo(b, c)
    requires SizeFrom(p, i + 1, c) == SizeFrom(q, i + 1, c)
    requires SerializedSizeFrom(p, i + 1, c) == SerializedSizeFrom(q, i + 1, c)
    requires WriteFrom(p, i + 1, c) == WriteFrom(q, i + 1, c)
    ensures SizeFrom(p, i, c) == SizeFrom(q, i, c)
    ensures SerializedSizeFrom(p, i, c) == SerializedSizeFrom(q, i, c)
    ensures WriteFrom(p, i, c) == WriteFrom(q, i, c)
  {
    SizeKeepsStep(p, q, i, c);
    SerializedSizeKeepsStep(p, q, i, c);
    WriteKeepsStep(p, q, i, c);
  }

  lemma SizeKeepsStep(p: Payload, q: Payload, i: nat, c: CustomCodec)
    requires p.Composite? && q.Composite? && p.items.present && q.items.present
    requires i < p.items.index == q.items.index && i < |p.items.slots| && i < |q.items.slots|
    requires p.items.slots[i].Some? && q.items.slots[i].Some?
    requires Size(p.items.slots[i].value, c) == Size(q.items.slots[i].value, c)
    requires SizeFrom(p, i + 1, c) == SizeFrom(q, i + 1, c)
    ensures SizeFrom(p, i, c) == SizeFrom(q, i, c)
  {
  }

  lemma SerializedSizeKeepsStep(p: Payload, q: Payload, i: nat, c: CustomCodec)
    requires p.Composite? && q.Composite? && p.items.present && q.items.present
    requires i < p.items.index == q.items.index && i < |p.items.slots| && i < |q.items.slots|
    requires p.items.slots[i].Some? && q.items.slots[i].Some?
    requires SerializedSize(p.items.slots[i].value, c) == SerializedSize(q.items.slots[i].value, c)
    requires SerializedSizeFrom(p, i + 1, c) == SerializedSizeFrom(q, i + 1, c)
    ensures SerializedSizeFrom(p, i, c) == SerializedSizeFrom(q, i, c)
  {
  }

  lemma WriteKeepsStep(p: Payload, q: Payload, i: nat, c: CustomCodec)
    requires p.Composite? && q.Composite? && p.items.present && q.items.present
    requires i < p.items.index == q.items.index && i < |p.items.slots| && i < |q.items.slots|
    requires p.items.slots[i].Some? && q.items.slots[i].Some?
    requires var a, b := p.items.slots[i].value, q.items.slots[i].value;
             GetType(a, c) == GetType(b, c) && WriteTo(a, c) == WriteTo(b, c)
    requires WriteFrom(p, i + 1, c) == WriteFrom(q, i + 1, c)
    ensures WriteFrom(p, i, c) == WriteFrom(q, i, c)
  {
  }

  /** The slots of the canonical composite: the canonical children, then
      nulls. */
  lemma CanonSlots(p: Payload)
    requires p.Composite? && Valid(p.items)
    ensures Canon(p).Composite? && Canon(p).items.present && Canon(p).items.index == p.items.index
    ensures p.items.index <= |Canon(p).items.slots|
    ensures forall i :: 0 <= i < p.items.index ==> Canon(p).items.slots[i] == Some(Canon(p.items.slots[i].value))
  {
    forall i | 0 <= i < p.items.index
      ensures Canon(p).items.slots[i] == Some(Canon(p.items.slots[i].value))
    {
      CanonFromAt(p, 0, i);
    }
  }

  /** Writing a well-formed tree of built-in payloads and reading the bytes
      into a fresh instance gives a payload of the same type, size and
      serialized size, and the serialized size is what was written. */
  lemma SerializationKeepsSizes(p: Payload, c: CustomCodec)
    requires Wf(p, c) && BuiltIn(p)
    ensures WriteTo(p, c).Ok? && SerializedSize(p, c) == Ok(|WriteTo(p, c).value|)
    ensures ShortCounts(p) ==>
            var r := ReadFrom(Fresh(p), WriteTo(p, c).value, c);
            && r.Ok? && r.value.1 == []
            && GetType(r.value.0, c) == GetType(p, c)
            && Size(r.value.0, c) == Size(p, c)
            && SerializedSize(r.value.0, c) == SerializedSize(p, c)
  {
    SerializedSizeIsExact(p, c);
    if ShortCounts(p) {
      RoundTrip(p, c, []);
      assert WriteTo(p, c).value + [] == WriteTo(p, c).value;
      CanonKeeps(p, c);
    }
  }

  // ------------------------------------------------ counts past the short

  /** As written, `writeTo` cuts a count of 32768 to 65535 children to
      sixteen bits, and `readFrom` takes it back as a negative count: the
      receiver holds an empty composite of capacity 2, and every child's
      bytes are left on the stream. */
  lemma WideCompositeLosesChildren(p: Payload, c: CustomCodec, body: seq<byte>)
    requires p.Composite? && SHORT_MAX < p.items.index < 0x1_0000
    requires WriteFrom(p, 0, c) == Ok(body)
    ensures WriteTo(p, c) == Ok(WriteShort(p.items.index) + body)
    ensures ReadFrom(Fresh(p), WriteTo(p, c).value, c)
            == Ok((Composite(Deque(true, Nulls(2), p.items.index - 0x1_0000), None), body))
  {
    var n := p.items.index;
    WriteToComposite(p, c, body);
    ReadWriteShortWraps(n, body);
    Pow256Values();
    assert Signed(Unsigned(n, 2), 2) == n - 0x1_0000;
    assert Fresh(p) == NewComposite;
  }

  /** `writeTo` as its reader needs it: a tree with a composite of more than
      32767 children is refused instead of having its count cut to sixteen
      bits. */
  function WriteToChecked(p: Payload, c: CustomCodec): (r: Result<seq<byte>>)
    ensures r.Ok? ==> ShortCounts(p) && r == WriteTo(p, c)
    ensures !ShortCounts(p) ==> r == Throws(IllegalArgument)
  {
    if ShortCounts(p) then WriteTo(p, c) else Throws(IllegalArgument)
  }

  /** Whatever the checked writer emits for a well-formed tree of built-in
      payloads reads back into a fresh instance as that tree's canonical
      form, and it refuses only trees whose counts the short cannot carry. */
  lemma CheckedRoundTrip(p: Payload, c: CustomCodec, rest: seq<byte>)
    requires Wf(p, c) && BuiltIn(p)
    ensures WriteToChecked(p, c).Ok? <==> ShortCounts(p)
    ensures WriteToChecked(p, c).Ok? ==>
              ReadFrom(Fresh(p), WriteToChecked(p, c).value + rest, c) == Ok((Canon(p), rest))
  {
    SerializedSizeIsExact(p, c);
    if ShortCounts(p) {
      RoundTrip(p, c, rest);
    }
  }

  // ------------------------------------------------------ concrete cases

  /** The constructor refuses an array with a null element and adopts one
      without; adds at the head come out in reverse order; removes at either
      end give the elements back and then null. */
  lemma DequeCases(a: Payload, b: Payload, d: Payload)
    ensures OfPayloads(Some([Some(a), None, Some(b)])) == Throws(IllegalArgument)
    ensures var r := OfPayloads(Some([Some(a), Some(a), Some(b)]));
            r.Ok? && NumPayloads(r.value) == 3 && Elements(r.value.items) == [a, a, b]
    ensures var p0 := WithCapacity(2).value;
            var p3 := AddAtHead(AddAtHead(AddAtHead(p0, Some(a)).value, Some(b)).value, Some(d)).value;
            Valid(p3.items) && Elements(p3.items) == [d, b, a]
    ensures var p0 := WithCapacity(2).value;
            var q := Add(Add(p0, Some(a)).value, Some(b)).value;
            var (x, q1) := Remove(q).value;
            var (y, q2) := Remove(q1).value;
            x == Some(b) && y == Some(a) && Elements(q2.items) == [] && Remove(q2).value.0 == None
    ensures var p0 := WithCapacity(2).value;
            var q := Add(Add(p0, Some(a)).value, Some(b)).value;
            var (x, q1) := RemoveAtHead(q).value;
            var (y, q2) := RemoveAtHead(q1).value;
            x == Some(a) && y == Some(b) && Elements(q2.items) == [] && RemoveAtHead(q2).value.0 == None
  {
    assert [Some(a), None, Some(b)][1].None?;
    var r := OfPayloads(Some([Some(a), Some(a), Some(b)]));
    assert Elements(r.value.items) == [a, a, b];
    var p0 := WithCapacity(2).value;
    var p1 := AddAtHead(p0, Some(a)).value;
    var p2 := AddAtHead(p1, Some(b)).value;
    assert Elements(p2.items) == [b, a];
    var q := Add(Add(p0, Some(a)).value, Some(b)).value;
    assert Elements(q.items) == [a, b];
  }

  /** Two byte-array payloads holding "hello " and "world" give the input
      "hello world". */
  lemma GetInputConcatenates(c: CustomCodec)
    ensures var hello: seq<byte> := [104, 101, 108, 108, 111, 32];
            var world: seq<byte> := [119, 111, 114, 108, 100];
            var pl := OfPayloads(Some([Some(ByteArray(BA.OfArray(Some(hello)).value)),
                                       Some(ByteArray(BA.OfArray(Some(world)).value))]));
            pl.Ok? && GetInput(pl.value, c) == Ok(hello + world)
  {
    var hello: seq<byte> := [104, 101, 108, 108, 111, 32];
    var world: seq<byte> := [119, 111, 114, 108, 100];
    var h := ByteArray(BA.OfArray(Some(hello)).value);
    var w := ByteArray(BA.OfArray(Some(world)).value);
    var pl := OfPayloads(Some([Some(h), Some(w)])).value;
    InputIsConcatenation(pl, c, 0);
    assert Elements(pl.items)[0..] == [h, w];
    assert GetInput(h, c) == Ok(hello);
    assert GetInput(w, c) == Ok(world);
    assert [h, w][1..] == [w] && [w][1..] == [];
    assert Inputs([w], c) == Ok(world + []);
    assert world + [] == world;
    assert Inputs([h, w], c) == Ok(hello + world);
  }
}
