# JGroups message and payload byte layer, in Dafny

This project models the part of JGroups that turns messages and payloads into
bytes and back, and the fragmentation that cuts an oversized message into
byte windows and puts it back together.  Everything is pure: Java objects
become immutable datatypes, `null` becomes `Option`, and a thrown exception
becomes `Result.Throws` with the exception's kind.  Ints are unbounded
integers.  Where Java's 32-bit arithmetic decides behaviour (an `off + len`
bounds check, a composite message's total length, a fragment window's end)
the wrap-around is written out; the size sums of `CompositePayload` are not
wrapped (see "Left out").

What is modelled, one module per source class:

- **Wire, JavaLang**: the `DataOutput`/`DataInput` primitives the codecs use
  (`writeInt`, `writeShort`, `writeByte`, `writeBoolean`, `write(b, off, len)`,
  `readFully`) as big-endian byte strings, with their round trips; Java's
  integer ranges and int overflow.
- **PartialOutput** (`PartialOutputStream`): the filter that forwards only the
  bytes of a write stream that fall in `[offset, end)`, where `end` is
  `offset + length` computed as a 32-bit int, so that it wraps negative when
  the sum overflows.  A serialiser is represented by the sequence of write
  calls it makes.
- **FragPlanner** (`Util.computeFragOffsets`): the window planner.  Its
  source is not part of this model; it is defined from the cases
  `MessageTest` checks, and its tiling, size and count properties are proved.
- **FragmentedMessages** (`FragmentedMessage`) and **FragmentationEndToEnd**:
  a fragment writes the int window length and then runs the original's
  serialiser through the filter; on receipt it is a length-prefixed chunk.
  The headline theorem `FragmentedMessages.FragmentationRoundTrip`: for any
  serialised form `S` and fragment size of at least 1, planning the windows,
  sending one fragment per window and concatenating the received chunks gives
  back `S` exactly.
- **FragHeaders** (`FragHeader`): a fixed-order record codec over the `Bits`
  encoders, which are a parameter.
- **PayloadTypes, PayloadFactories, Payloads, ByteArrayPayloads,
  ArrayDeques, CompositePayloads** (`Payload`, `DefaultPayloadFactory`,
  `ByteArrayPayload`, `CompositePayload`): the payload generation.  That is
  the type registry with its reserved range, the bounds-checked byte-array
  view, and the array-backed composite with add and remove at both ends,
  growth, a type-tagged codec and a concatenated input.  Payloads of types
  other than the two built-in ones are opaque; their codec is the
  `CustomCodec` parameter.
- **Envelopes, BytesMessages, EmptyMessages, CompositeMessages,
  ByteBuffers, NioMessages, NioDirectMessages, ObjectMessages**: the payload
  sections of the message classes.  The shared envelope (`BaseMessage`,
  `Headers`) is not part of this model.  It is an opaque record of
  destination, source, flags and headers, used only by the `copy` contracts,
  and on the wire it is an opaque prefix of bytes.  A `ByteBuffer` is a value
  with memory, array offset, capacity, position, limit and a direct flag.
  Java serialisation and the generic streamable format are the `ObjCodec`
  parameter.

The two design generations, payloads and message subclasses, are kept in
separate modules.

## Model

| member | source | states |
|---|---|---|
| JavaLang.AddInt | src/org/jgroups/BytesMessage.java:149 | the int sum `offset + length` as Java evaluates it: the true sum when it fits an int, otherwise the sum wrapped by 2^32, negative on overflow and non-negative on underflow |
| JavaLang.Wrap | src/org/jgroups/CompositeMessage.java:122-126 | an int accumulator's value: an int congruent to the true value modulo 2^32, and the value itself when it fits |
| Wire.FromBigEndianOfBigEndian | src/org/jgroups/ByteArrayPayload.java:59-66 | decoding the big-endian bytes of an unsigned value gives the value back |
| Wire.BigEndianOfFromBigEndian | src/org/jgroups/ByteArrayPayload.java:59-66 | every byte string is the big-endian encoding of the value it decodes to |
| Wire.WriteRange | src/org/jgroups/BytesMessage.java:294 | `out.write(b, off, len)` emits exactly `b[off .. off + len)` when the range lies inside the array, and is an index error otherwise |
| Wire.ReadInt | src/org/jgroups/BytesMessage.java:298 | `readInt()` succeeds exactly when four bytes are present, yields an int and consumes exactly four bytes; otherwise it is an EOFException |
| Wire.ReadShort | src/org/jgroups/CompositePayload.java:152 | `readShort()` succeeds exactly when two bytes are present, yields a short and consumes exactly two bytes |
| Wire.ReadByte | src/org/jgroups/CompositePayload.java:155 | `readByte()` succeeds exactly when a byte is present, yields a signed byte and consumes it |
| Wire.ReadBoolean | src/org/jgroups/NioMessage.java:255 | `readBoolean()` succeeds exactly when a byte is present and is true exactly when that byte is not zero |
| Wire.ReadFully | src/org/jgroups/BytesMessage.java:301 | `readFully(buf, 0, n)` succeeds exactly when `n` bytes are present and splits the input into those `n` bytes and the rest; otherwise it is an EOFException |
| Wire.ReadWriteInt | src/org/jgroups/ByteArrayPayload.java:59-66 | `readInt` of what `writeInt(v)` wrote gives `v` back and leaves the bytes that follow |
| Wire.WriteReadInt | src/org/jgroups/ByteArrayPayload.java:59-66 | the four bytes `readInt` consumes are exactly what `writeInt` writes for the value it read |
| Wire.ReadWriteShort | src/org/jgroups/CompositePayload.java:143-152 | `readShort` of what `writeShort(v)` wrote gives back any short `v` and leaves the bytes that follow |
| Wire.ReadWriteShortWraps | src/org/jgroups/CompositePayload.java:143 | `writeShort` keeps only the low sixteen bits, so a count outside the short range reads back wrapped |
| Wire.ReadWriteByte | src/org/jgroups/CompositePayload.java:146-155 | `readByte` of what `writeByte(v)` wrote gives back any byte value `v` |
| Wire.ReadWriteBoolean | src/org/jgroups/NioMessage.java:229-255 | `readBoolean` of what `writeBoolean(b)` wrote gives `b` back and leaves the bytes that follow |
| Wire.SignedRoundTrip | src/org/jgroups/ByteArrayPayload.java:59-66 | an `n`-byte two's-complement big-endian encoding of a value in range reads back as that value |
| Envelopes.CopyEnvelope | src/org/jgroups/CompositeMessage.java:201-210 | a copy keeps destination, source and both flag sets; it shares the header map exactly when headers are asked for and exist, and otherwise starts with an empty map |
| Envelopes.CopyEnvelopeStable | src/org/jgroups/CompositeMessage.java:201-210 | copying with headers leaves an envelope that has a header map as it is, and copying a copy changes nothing more |
| PayloadFactories.Default | src/org/jgroups/DefaultPayloadFactory.java:12-19 | a new factory has a table of Byte.MAX_VALUE (127) slots with creators for COMPOSITE and BYTE_ARRAY only |
| PayloadFactories.Create | src/org/jgroups/DefaultPayloadFactory.java:21-26 | `create(type)` succeeds exactly when slot `type` exists and is filled, and returns that creator; an empty slot is an IllegalArgumentException and a tag outside the table an index error |
| PayloadFactories.Register | src/org/jgroups/DefaultPayloadFactory.java:28-35 | `register` succeeds exactly for a non-null generator, a tag above 32 inside the table and a free slot, and then fills only that slot; the exception for each refusal, in the code's order |
| PayloadFactories.DefaultCreates | src/org/jgroups/DefaultPayloadFactory.java:12-26 | on every byte tag a new factory creates exactly BYTE_ARRAY and COMPOSITE payloads; negative tags and 127 index out of the table |
| PayloadFactories.RegisterThenCreate | src/org/jgroups/DefaultPayloadFactory.java:21-35 | after a successful `register`, `create` of that tag gives the new generator, every other tag behaves as before, and registering the tag again is refused |
| PayloadFactories.ReservedAndOutOfTable | src/org/jgroups/DefaultPayloadFactory.java:12-35 | tags up to 32 (the built-in ones included) cannot be registered, 127 is outside the table, and a null generator is refused first |
| ByteArrayPayloads.SetAsWritten | src/org/jgroups/ByteArrayPayload.java:78-84 | as written: `set` accepts exactly a non-null array, `0 <= off < length` and an int-wrapped `off + len` no larger than the length; a negative offset is refused before the null check |
| ByteArrayPayloads.Set | src/org/jgroups/ByteArrayPayload.java:78-84 | corrected `set`: accepts exactly the views that start at an element of the array and lie inside it (non-negative length), and the view is then exactly those bytes; the exception kind of every refusal |
| ByteArrayPayloads.OfArray | src/org/jgroups/ByteArrayPayload.java:20-26 | the one-argument constructor accepts exactly a non-null, non-empty array and views all of it from offset 0 |
| ByteArrayPayloads.WriteTo | src/org/jgroups/ByteArrayPayload.java:58-62 | `writeTo` emits the int length and then, for a positive length, exactly the bytes of the view; it fails only for a positive length without a valid view |
| ByteArrayPayloads.ReadFrom | src/org/jgroups/ByteArrayPayload.java:65-72 | `readFrom` reads an int; a length of zero or less changes nothing; a positive one takes exactly that many following bytes as a new array, keeping the offset, and fails at end of stream when they are missing |
| ByteArrayPayloads.GetInput | src/org/jgroups/ByteArrayPayload.java:32 | `getInput()` fails on a null array and yields exactly the bytes of a view that lies inside its array |
| ByteArrayPayloads.Copy | src/org/jgroups/ByteArrayPayload.java:40-46 | `copy()` shares the whole-array view and copies any other view out to offset 0; the copy shows the same bytes; an empty partial view makes `set` refuse the copy |
| ByteArrayPayloads.SerializedSizeIsExact | src/org/jgroups/ByteArrayPayload.java:52-62 | for every state `set` admits, `serializedSize()` is the number of bytes `writeTo` emits |
| ByteArrayPayloads.RoundTrip | src/org/jgroups/ByteArrayPayload.java:58-72 | reading back what `writeTo` emitted into a fresh instance consumes exactly those bytes and restores the length, the sizes and the bytes of the view at offset 0; an empty view comes back as a fresh instance |
| ByteArrayPayloads.EmptyViewLosesItsArray | src/org/jgroups/ByteArrayPayload.java:58-72 | an empty view has an array and an empty input on the sender, but arrives without an array, so the receiver's `getInput()` throws |
| ByteArrayPayloads.SetAsWrittenAcceptsNegativeLength | src/org/jgroups/ByteArrayPayload.java:78-84 | the as-written check accepts length -1 on a one-byte array; `serializedSize()` then says 3 while `writeTo` emits 4 bytes, and the length reads back as 0; the corrected `set` refuses it |
| ByteArrayPayloads.SetAsWrittenAcceptsWrappingEnd | src/org/jgroups/ByteArrayPayload.java:79 | the as-written check accepts offset 1 with length INT_MAX on a two-byte array, because `off + len` wraps; the corrected `set` refuses it |
| ByteArrayPayloads.ExpectedCases | tests/junit-functional/org/jgroups/tests/ByteArrayPayloadTest.java:20-43 | the five construction cases the test expects to fail are refused and the three it expects to succeed are accepted |
| ByteArrayPayloads.ExpectedCasesAsWritten | tests/junit-functional/org/jgroups/tests/ByteArrayPayloadTest.java:20-43 | the as-written `set` passes the same eight cases, so the tests do not reach the negative or wrapping length it lets through |
| ByteArrayPayloads.CopyCases | tests/junit-functional/org/jgroups/tests/ByteArrayPayloadTest.java:45-61 | on an 11-byte array the whole view is shared, and the first and last five bytes are copied out exactly |
| Payloads.Create | src/org/jgroups/Payload.java:20-28 | `Payload.create`: with a factory, exactly what the factory gives; without one, a fresh composite or byte array for those two tags and null for every other tag |
| Payloads.Serialize | src/org/jgroups/Payload.java:69-75 | `serialize()` succeeds exactly when `writeTo` does, and is the type byte followed by `writeTo`'s bytes |
| Payloads.CreateWithDefaultFactory | src/org/jgroups/Payload.java:20-28 | a default factory creates the same payloads as no factory for the two built-in tags; on any other tag no factory gives null and the default factory throws |
| Payloads.CopyFromAt | src/org/jgroups/CompositePayload.java:105-117 | slot `j` of a composite's copy is null where the original's is null and holds the copy of the original's payload otherwise |
| Payloads.CopyKeepsShape | src/org/jgroups/CompositePayload.java:105-117 | `copy()` of a composite keeps the count and the capacity, puts the copy of each element in its place and drops the factory |
| ArrayDeques.Unallocated | src/org/jgroups/CompositePayload.java:26-27 | the no-argument constructor leaves no array: no elements and capacity 0 |
| ArrayDeques.Nulls | src/org/jgroups/CompositePayload.java:29-31 | a new array of `n` slots holds `n` nulls |
| ArrayDeques.Elements | src/org/jgroups/CompositePayload.java:22 | the stored elements are the `index` non-null slots at the front of the array, in order |
| ArrayDeques.Grow | src/org/jgroups/CompositePayload.java:175 | `Arrays.copyOf` to a larger size keeps the old slots and pads with nulls |
| ArrayDeques.EnsureCapacity | src/org/jgroups/CompositePayload.java:171-176 | `ensureCapacity(size)` allocates `size + 1` slots when there is no array or it is too short, keeps the old slots and adds only nulls, and otherwise changes nothing; a negative size without an array is a NegativeArraySizeException |
| ArrayDeques.Store | src/org/jgroups/CompositePayload.java:60-65 | the store behind `add` always succeeds on a non-negative count, puts the value at position `index`, moves the count up by one and leaves every other slot as it was |
| ArrayDeques.StoreAtHead | src/org/jgroups/CompositePayload.java:69-76 | the store behind `addAtHead` always succeeds on a non-negative count and moves the count up by one |
| ArrayDeques.RemoveLast | src/org/jgroups/CompositePayload.java:79-87 | `remove()` on an empty deque or without an array returns null and changes nothing |
| ArrayDeques.RemoveFirst | src/org/jgroups/CompositePayload.java:90-98 | `removeAtHead()` on an empty deque or without an array returns null and changes nothing |
| ArrayDeques.Get | src/org/jgroups/CompositePayload.java:100-102 | `get(i)` is the raw slot, null included, exactly for an index inside the array; otherwise an index error, or a NullPointerException without an array |
| ArrayDeques.EnsureCapacityKeeps | src/org/jgroups/CompositePayload.java:171-176 | on a well-formed deque `ensureCapacity(index)` keeps the elements and grows only a full array, by exactly one slot |
| ArrayDeques.StoreAppends | src/org/jgroups/CompositePayload.java:60-65 | adding a payload keeps the representation invariant and appends it to the elements |
| ArrayDeques.StoreAtHeadPrepends | src/org/jgroups/CompositePayload.java:69-76 | adding at the head keeps the invariant and puts the payload in front of the others, in their order |
| ArrayDeques.RemoveLastTakesLast | src/org/jgroups/CompositePayload.java:79-87 | `remove()` returns the last element, keeps the others in order and keeps the invariant; on an empty deque it returns null |
| ArrayDeques.RemoveFirstTakesFirst | src/org/jgroups/CompositePayload.java:90-98 | `removeAtHead()` returns the first element, moves the rest down in order and keeps the invariant; on an empty deque it returns null |
| ArrayDeques.AddThenRemove | src/org/jgroups/CompositePayload.java:60-98 | `add` then `remove`, and `addAtHead` then `removeAtHead`, give back the element added and the elements as they were |
| CompositePayloads.WithCapacity | src/org/jgroups/CompositePayload.java:29-31 | `new CompositePayload(capacity)` succeeds exactly for a non-negative capacity and gives an empty composite of that capacity without a factory |
| CompositePayloads.OfPayloads | src/org/jgroups/CompositePayload.java:33-44 | the varargs constructor succeeds exactly when no element is null; it adopts a non-empty array as it is, full, and makes an empty composite of capacity 2 from a null or empty one |
| CompositePayloads.Add | src/org/jgroups/CompositePayload.java:60-65 | `add(null)` throws; otherwise the payload is appended to the elements, and the capacity grows by one only when the array was full |
| CompositePayloads.AddAtHead | src/org/jgroups/CompositePayload.java:69-76 | `addAtHead(null)` throws; otherwise the payload comes first, followed by the old elements in order |
| CompositePayloads.Remove | src/org/jgroups/CompositePayload.java:79-87 | `remove()` returns the last element and leaves the others in order, or returns null and changes nothing when the composite is empty |
| CompositePayloads.RemoveAtHead | src/org/jgroups/CompositePayload.java:90-98 | `removeAtHead()` returns the first element and leaves the rest in order, or returns null and changes nothing when the composite is empty |
| CompositePayloads.SerializedSizeIsExact | src/org/jgroups/CompositePayload.java:135-149 | for every well-formed tree, `serializedSize()` is the number of bytes `writeTo` emits |
| CompositePayloads.SerializedSizeFromIsExact | src/org/jgroups/CompositePayload.java:137-148 | the same, loop position by loop position: what the size loop adds from `i` on is what the write loop emits from `i` on |
| CompositePayloads.RoundTrip | src/org/jgroups/CompositePayload.java:142-159 | for a tree whose every composite has at most 32767 children, reading what `writeTo` emitted into a fresh instance consumes exactly those bytes and gives back the tree in the form a receiver builds: the same elements, with byte arrays copied out and composites at capacity `max(count, 2)` |
| CompositePayloads.RoundTripFrom | src/org/jgroups/CompositePayload.java:144-158 | the read loop, fed what the write loop emitted from position `i`, fills slots `i` up to the count with the received children and consumes exactly those bytes, when every nested composite has at most 32767 children |
| CompositePayloads.CompositeReadBack | src/org/jgroups/CompositePayload.java:151-159 | for a count of at most 32767, reading the count and then the children into a fresh composite gives the received composite, with `max(count, 2)` slots |
| CompositePayloads.CanonFromAt | src/org/jgroups/CompositePayload.java:153-158 | slot `j` of the received array holds the received form of the sender's element `j` |
| CompositePayloads.SizeIsSum | src/org/jgroups/CompositePayload.java:128-133 | `size()` of a composite is the sum of its elements' sizes, left to right |
| CompositePayloads.InputIsConcatenation | src/org/jgroups/CompositePayload.java:53 | `getInput()` of a composite yields its elements' inputs one after the other |
| CompositePayloads.SumSizesAppend | src/org/jgroups/CompositePayload.java:128-133 | the size sum over two lists joined is the sum of the two sums, the first failure deciding |
| CompositePayloads.InputsAppend | src/org/jgroups/CompositePayload.java:180-191 | the inputs of two lists joined are the first list's inputs followed by the second's |
| CompositePayloads.AddExtendsSizeAndInput | src/org/jgroups/CompositePayload.java:53-65 | after `add(x)`, the size is the old size plus `x`'s size, and the input is the old input followed by `x`'s input |
| CompositePayloads.AddExtendsSize | src/org/jgroups/CompositePayload.java:60-65 | after `add(x)` the size is the old size plus `x`'s size |
| CompositePayloads.AddExtendsInput | src/org/jgroups/CompositePayload.java:53-65 | after `add(x)` the input is the old input followed by `x`'s input |
| CompositePayloads.AddAtHeadExtendsSizeAndInput | src/org/jgroups/CompositePayload.java:53-76 | after `addAtHead(x)`, the size is `x`'s size plus the old size, and the input starts with `x`'s input |
| CompositePayloads.CanonKeeps | src/org/jgroups/CompositePayload.java:128-159 | the received form of a tree has the sender's type, size and serialized size, and writes the very same bytes |
| CompositePayloads.CanonFromKeeps | src/org/jgroups/CompositePayload.java:128-149 | the same from loop position `i`, for the composite size, serialized-size and write loops |
| CompositePayloads.CanonSlots | src/org/jgroups/CompositePayload.java:151-159 | a received composite has an array, the sender's count, and the received form of each element in its slot |
| CompositePayloads.SerializationKeepsSizes | tests/junit-functional/org/jgroups/tests/CompositePayloadTest.java:149-163 | the serialized size of a well-formed tree is what `writeTo` writes, for any number of children; when every composite has at most 32767 children, reading it into a fresh instance gives a payload with the same type, size and serialized size |
| CompositePayloads.WideCompositeLosesChildren | src/org/jgroups/CompositePayload.java:142-158 | as written, a composite of 32768 to 65535 children is written with its count cut to sixteen bits and read back as an empty composite with a negative count, its children's bytes left on the stream |
| CompositePayloads.WriteToChecked | src/org/jgroups/CompositePayload.java:142-149 | the corrected `writeTo` refuses a tree with a composite of more than 32767 children and otherwise writes what `writeTo` writes |
| CompositePayloads.CheckedRoundTrip | src/org/jgroups/CompositePayload.java:142-158 | whatever the corrected writer emits for a well-formed tree of built-in payloads reads back as that tree's received form, and it refuses exactly the trees whose counts a short cannot carry |
| CompositePayloads.DequeCases | tests/junit-functional/org/jgroups/tests/CompositePayloadTest.java:24-114 | an array with a null element is refused and one without is adopted; three `addAtHead`s come out in reverse; `remove` and `removeAtHead` give the elements back from their end and then null |
| CompositePayloads.GetInputConcatenates | tests/junit-functional/org/jgroups/tests/CompositePayloadTest.java:116-126 | the byte arrays "hello " and "world" in one composite give the input "hello world" |
| CompositeMessages.ChunkBytes | src/org/jgroups/CompositeMessage.java:272 | the bytes `out.write(array, offset, length)` emits for one view exist exactly when the view lies inside its array, and there are `length` of them |
| CompositeMessages.New | src/org/jgroups/CompositeMessage.java:44-47 | a new message has no array, no elements and does not collapse arrays |
| CompositeMessages.GetOffset | src/org/jgroups/CompositeMessage.java:120 | `getOffset()` always throws UnsupportedOperationException |
| CompositeMessages.GetArray | src/org/jgroups/CompositeMessage.java:121 | `getArray()` always throws UnsupportedOperationException |
| CompositeMessages.SetArray | src/org/jgroups/CompositeMessage.java:129-130 | both `setArray` overloads always throw UnsupportedOperationException |
| CompositeMessages.SetObject | src/org/jgroups/CompositeMessage.java:131 | `setObject` always throws UnsupportedOperationException |
| CompositeMessages.GetObject | src/org/jgroups/CompositeMessage.java:132 | `getObject` always throws UnsupportedOperationException |
| CompositeMessages.ArrayAndObjectConstructorsThrow | src/org/jgroups/CompositeMessage.java:56-100 | the constructors that take an array, a ByteArray or an object never return, because they call a setter that throws |
| CompositeMessages.LengthFromIsTotal | src/org/jgroups/CompositeMessage.java:122-127 | the length loop from position `i` adds up exactly the lengths of the views from `i` on |
| CompositeMessages.GetLengthIsTotal | src/org/jgroups/CompositeMessage.java:122-127 | `getLength()` is the total length of the views, wrapped to an int |
| CompositeMessages.TotalLengthAppend | src/org/jgroups/CompositeMessage.java:122-127 | the total length of two lists joined is the sum of their totals |
| CompositeMessages.Add | src/org/jgroups/CompositeMessage.java:142-146 | corrected `add`: null is refused before anything changes; otherwise the view is appended and the capacity grows by one only when the array was full |
| CompositeMessages.AddAsWritten | src/org/jgroups/CompositeMessage.java:142-146 | as written: for a non-null view it is the corrected `add`; for null it throws only after the count has moved past a slot that stays null |
| CompositeMessages.AddAtHead | src/org/jgroups/CompositeMessage.java:154-161 | `addAtHead(null)` throws; otherwise the view comes first, followed by the old views in order |
| CompositeMessages.Remove | src/org/jgroups/CompositeMessage.java:164-171 | `remove()` returns the last view and leaves the others in order, or returns null and changes nothing when there are none |
| CompositeMessages.RemoveAtHead | src/org/jgroups/CompositeMessage.java:174-181 | `removeAtHead()` returns the first view and leaves the rest in order, or returns null and changes nothing when there are none |
| CompositeMessages.Get | src/org/jgroups/CompositeMessage.java:183-185 | `get(i)` is element `i` for a position below the count, and throws NullPointerException without an array |
| CompositeMessages.AddNullCorruptsCount | src/org/jgroups/CompositeMessage.java:142-146 | after the as-written `add(null)`, the message counts a null view: it claims a payload, `getLength()` throws and the payload cannot be written; the corrected `add` refuses the call |
| CompositeMessages.LengthFromNull | src/org/jgroups/CompositeMessage.java:124-125 | the length loop throws NullPointerException when it reaches a null slot |
| CompositeMessages.ChunksFromNull | src/org/jgroups/CompositeMessage.java:271-272 | the write loop fails when it reaches a null slot |
| CompositeMessages.Copy | src/org/jgroups/CompositeMessage.java:201-224 | `copy`: the envelope is copied; with `copyBuffer` and an array, the copy keeps the count and the capacity and holds the copy of every non-null slot in place; otherwise it has no array; the collapse flag is not carried over |
| CompositeMessages.ChunksFromIsConcat | src/org/jgroups/CompositeMessage.java:270-273 | the write loop from `i` emits the views' bytes from `i` on, back to back, and their number is the total length |
| CompositeMessages.WritePayloadIsConcatenation | src/org/jgroups/CompositeMessage.java:268-274 | when every view lies inside its array, the payload is the count followed by the views' bytes in order, four bytes more than the total length |
| CompositeMessages.AddExtendsLength | src/org/jgroups/CompositeMessage.java:122-146 | after `add(x)` the length grows by `x`'s length |
| CompositeMessages.AddExtendsPayload | src/org/jgroups/CompositeMessage.java:142-146 | after `add(x)` the payload carries the new count and ends with `x`'s bytes |
| CompositeMessages.ConcatAppend | src/org/jgroups/CompositeMessage.java:270-273 | the bytes of two lists of views joined are the first list's bytes followed by the second's |
| CompositeMessages.TwoViews | src/org/jgroups/CompositeMessage.java:122-146 | two views of 10 and 1000 bytes make a message of length 1010 that has a payload |
| PartialOutput.WriteByte | src/org/jgroups/util/PartialOutputStream.java:22-32 | `write(int)` forwards the byte exactly when the cursor is inside `[offset, end)`, where `end` is the int sum `offset + length`; before the window it only advances the cursor, past the window it does nothing; for a non-negative length what it forwards is the in-window part of the one-byte write |
| PartialOutput.WriteBytes | src/org/jgroups/util/PartialOutputStream.java:34-51 | `write(b, off, len)` is a no-op past the window, only advances the cursor when the whole range lies before the window, forwards the first `min(len, end - pos)` bytes inside it, and on a write straddling the start skips `offset - pos` bytes and forwards at most `end - offset` of the rest |
| PartialOutput.WriteBytesInWindow | src/org/jgroups/util/PartialOutputStream.java:34-51 | whatever the cursor, a range write forwards exactly those of its bytes whose stream positions fall inside the window, and leaves the cursor at `min(pos + len, end)` |
| PartialOutput.DirectInWindow | src/org/jgroups/util/PartialOutputStream.java:47-50 | a range write that starts inside or after the window forwards exactly its in-window bytes |
| PartialOutput.StraddleInWindow | src/org/jgroups/util/PartialOutputStream.java:38-46 | a range write that starts before the window and reaches into it forwards exactly its in-window bytes after the recursive call on the suffix |
| PartialOutput.StepTracks | src/org/jgroups/util/PartialOutputStream.java:22-51 | one write call keeps the filter's invariant: cursor at `min(written, end)` and forwarded bytes equal to the window's part of everything written so far |
| PartialOutput.RunTracks | src/org/jgroups/util/PartialOutputStream.java:22-51 | any sequence of write calls keeps that invariant |
| PartialOutput.IntSum | src/org/jgroups/util/PartialOutputStream.java:23 | `end_range` is Java's wrapping int sum of offset and length, the same value `AddInt` gives |
| PartialOutput.RunPastEnd | src/org/jgroups/util/PartialOutputStream.java:22-37 | once the cursor has reached the end of the window every further write is ignored |
| PartialOutput.ForwardsExactlyTheWindow | src/org/jgroups/util/PartialOutputStream.java:16-51 | for a non-negative int offset and length whose sum fits an int, a fresh filter fed any serialiser's write calls forwards exactly `S[offset .. min(offset + length, |S|))` of their concatenation `S`, `min(length, |S| - offset)` bytes, and ends with its cursor at `min(|S|, offset + length)`; when the sum overflows, `end_range` wraps negative and the filter forwards nothing and keeps its cursor at 0 |
| FragmentedMessages.Create | src/org/jgroups/FragmentedMessage.java:29-33 | the constructor keeps a reference to the original and copies none of its bytes |
| FragmentedMessages.CreateRecords | src/org/jgroups/FragmentedMessage.java:29-41 | a fragment reports type FRAG_MSG and views exactly the offset and length it was built with |
| FragmentedMessages.ReadPayloadReads | src/org/jgroups/FragmentedMessage.java:56-62 | `readPayload` succeeds exactly when the int and, for a positive length, that many more bytes are present; the length is stored whatever its sign, a positive length brings exactly the next `length` bytes in as the chunk, otherwise the chunk stays as it was; a short stream is an EOFException |
| FragmentedMessages.WritePayloadIsWindow | src/org/jgroups/FragmentedMessage.java:64-68 | `writePayload` emits the int length followed by exactly the original's serialised bytes inside the window (clipped at its end); when `offset + length` overflows an int it emits the length alone |
| FragmentedMessages.SizeOfPayloadIsExact | src/org/jgroups/FragmentedMessage.java:52-54 | when the original fills the window and its end fits an int, `sizeOfPayload()` is the number of bytes `writePayload` emits; when the end overflows, `writePayload` emits only the four length bytes |
| FragmentedMessages.FragmentRoundTrip | src/org/jgroups/FragmentedMessage.java:52-68 | a fragment written and read back into `new FragmentedMessage()` carries the window's bytes as its chunk, has the window's length, and consumes exactly its own bytes |
| FragmentedMessages.Fragments | tests/junit-functional/org/jgroups/tests/FragmentedMessageTest.java:73-77 | one fragment per planned range, in order, each viewing the same original at that range |
| FragmentedMessages.SendAll | tests/junit-functional/org/jgroups/tests/FragmentedMessageTest.java:73-77 | writing the fragments in order to one stream emits at least the four length bytes per fragment when it succeeds |
| FragmentedMessages.ReceiveAll | tests/junit-functional/org/jgroups/tests/FragmentedMessageTest.java:79-90 | reading `n` fragments consumes at least four bytes per fragment, and a short stream is an EOFException |
| FragmentedMessages.SendAllFrames | tests/junit-functional/org/jgroups/tests/FragmentedMessageTest.java:72-77 | writing the fragments of in-bounds non-empty windows one after another puts on the stream, for each window in order, its int length followed by exactly the original's bytes in that window |
| FragmentedMessages.ReceiveFrames | tests/junit-functional/org/jgroups/tests/FragmentedMessageTest.java:79-85 | reading as many fragments as a stream of length-prefixed windows holds, each into a fresh instance, yields the windows' bytes concatenated in order and stops exactly at the end of the last window |
| FragmentedMessages.SendReceiveGathers | tests/junit-functional/org/jgroups/tests/FragmentedMessageTest.java:69-90 | for any list of non-empty in-bounds windows, sending their fragments and receiving as many yields the windows' bytes concatenated in order, and consumes exactly the sent stream |
| FragmentedMessages.FragmentationRoundTrip | tests/junit-functional/org/jgroups/tests/FragmentedMessageTest.java:69-93 | cutting a message's wire form `S` with the planner, sending one fragment per window and reassembling the received chunks in order gives back `S` exactly, with the stream consumed exactly |
| FragPlanner.ComputeFragOffsets | tests/junit-functional/org/jgroups/tests/MessageTest.java:286-360 | the plan is empty exactly when there is nothing to cut |
| FragPlanner.PlanTiles | tests/junit-functional/org/jgroups/tests/MessageTest.java:286-360 | the plan tiles `[offset, offset + length)`: the windows lie back to back from `offset`, hold 1 to `frag_size` bytes each, all but the last full, and add up to `length` |
| FragPlanner.PlanSizes | tests/junit-functional/org/jgroups/tests/MessageTest.java:286-360 | every window holds between 1 and `frag_size` bytes and every window but the last holds exactly `frag_size` |
| FragPlanner.PlanCovers | tests/junit-functional/org/jgroups/tests/MessageTest.java:306-324 | the windows start at `offset`, each starts where the previous one ends, and their lengths add up to `length` |
| FragPlanner.PlanBounds | tests/junit-functional/org/jgroups/tests/MessageTest.java:306-324 | every window lies inside `[offset, offset + length)` |
| FragPlanner.ClosedForm | tests/junit-functional/org/jgroups/tests/MessageTest.java:286-360 | window `i` starts at `offset + i * frag_size` and holds `min(frag_size, length - i * frag_size)` bytes |
| FragPlanner.WindowCount | tests/junit-functional/org/jgroups/tests/MessageTest.java:286-360 | a non-empty range is cut into `ceil(length / frag_size)` windows |
| FragPlanner.ExpectedCases | tests/junit-functional/org/jgroups/tests/MessageTest.java:286-360 | the plans the tests expect: 10 bytes by 4, by 4 from offset 3, by 10, by 100 and by 5, and 1200 bytes by 500 as in the fragmentation test |
| FragPlanner.GatherPlanned | tests/junit-functional/org/jgroups/tests/FragmentedMessageTest.java:72-90 | putting the planned windows of a buffer back together in order yields the planned range of that buffer exactly |
| FragHeaders.Make | src/org/jgroups/protocols/FragHeader.java:24-28 | the three-argument constructor sets id, fragment number and count, and leaves `needs_deserialization` cleared |
| FragHeaders.SetNeedsDeserialization | src/org/jgroups/protocols/FragHeader.java:31 | `needsDeserialization(flag)` sets the flag and leaves id, fragment number and count as they were |
| FragHeaders.SerializedSizeIsExact | src/org/jgroups/protocols/FragHeader.java:44-53 | for encoders whose sizes are exact, `serializedSize()` is the number of bytes `writeTo` emits, the flag counting one byte |
| FragHeaders.RoundTrip | src/org/jgroups/protocols/FragHeader.java:44-60 | for encoders that read back what they write, `readFrom` of what `writeTo` emitted restores every field, the flag included, and leaves the bytes that follow |
| FragHeaders.FlaggedHeaderRoundTrip | src/org/jgroups/protocols/FragHeader.java:24-60 | a header built with the three-argument constructor and then flagged reads back with the same fields and the flag set |
| FragmentationEndToEnd.BytesMessageWrites | tests/junit/org/jgroups/protocols/FRAG4_Test.java:54-59 | the write calls of a BytesMessage's `writeTo` are valid and serialise to its envelope bytes followed by its payload section |
| FragmentationEndToEnd.BytesMessageSurvivesFragmentation | tests/junit-functional/org/jgroups/tests/FragmentedMessageTest.java:23-27 | a BytesMessage fragmented at any size and reassembled decodes, after its envelope, into a message with the original's `getLength()` and the same payload bytes, with nothing left over |
| FragmentationEndToEnd.EmptyMessageSurvivesFragmentation | tests/junit/org/jgroups/protocols/FRAG4_Test.java:48-52 | an EmptyMessage's wire form, its envelope alone, comes back exactly after fragmentation and reassembly |
| BytesMessages.Fresh | src/org/jgroups/BytesMessage.java:101-109 | a message made for reading into or copying has no array, offset 0 and length 0 |
| BytesMessages.SetArray | src/org/jgroups/BytesMessage.java:144-157 | `setArray(b, off, len)` always installs `b`; a null array resets offset and length to 0; a non-null array is accepted exactly when `0 <= off <= b.length` and the int sum `off + len` is at most `b.length`, and then takes `off` and `len`; otherwise it throws ArrayIndexOutOfBoundsException with the old offset and length left in place |
| BytesMessages.SetObject | src/org/jgroups/BytesMessage.java:181-184 | `setObject(null)` leaves the message as it is; `setObject(byte[])` makes the whole array the payload |
| BytesMessages.View | src/org/jgroups/BytesMessage.java:118-128 | the bytes the message stands for, `getLength()` of them, exist only when it has an array |
| BytesMessages.HasPayloadIffBytes | src/org/jgroups/BytesMessage.java:116-119 | for a message whose view lies inside its array, `hasPayload()` holds exactly when the view is non-empty, and `getLength()` is the view's length (0 without an array) |
| BytesMessages.Copy | src/org/jgroups/BytesMessage.java:235-250 | a copy carries the envelope fields over; with `copy_buffer` and an array it shares the array, offset and length and so the same view; otherwise it has no array; copying a valid message never throws |
| BytesMessages.WritePayload | src/org/jgroups/BytesMessage.java:284-295 | `writePayload` writes `-1` without an array, else the length and the viewed bytes; it emits exactly `sizeOfPayload()` bytes; a view outside the array is an index error |
| BytesMessages.ReadPayload | src/org/jgroups/BytesMessage.java:297-304 | `readPayload` succeeds exactly when the int and, for a non-negative count, that many more bytes are present; a non-negative count installs a fresh array of exactly the next `len` bytes with length `len`, a negative one leaves the message unchanged; a short stream is an EOFException |
| BytesMessages.PayloadRoundTrip | src/org/jgroups/BytesMessage.java:284-304 | reading what `writePayload` wrote into a fresh message restores the absence of an array, or otherwise exactly the viewed bytes with the same length at offset 0, and leaves the bytes that follow |
| BytesMessages.AbsentAndEmptyStayDistinct | src/org/jgroups/BytesMessage.java:291-304 | a null array and an empty one are written differently and each reads back as its own kind |
| BytesMessages.SetArrayAcceptsViewsOutsideTheArray | src/org/jgroups/BytesMessage.java:147-152 | `setArray` accepts a negative length and an `off + len` that wraps past the int range; such views lie outside the array and the message then fails in `writePayload` |
| BytesMessages.FailedSetArrayLeavesStaleView | src/org/jgroups/BytesMessage.java:145-150 | a rejected `setArray` has already replaced the array, so the old offset and length now describe a view outside the new array |
| BytesMessages.PayloadWrites | src/org/jgroups/BytesMessage.java:291-295 | the write calls `writePayload` makes serialise to exactly what it emits |
| EmptyMessages.Copy | src/org/jgroups/EmptyMessage.java:30-41 | a copy keeps destination, source and both flag sets, shares the headers only when asked and present, and otherwise starts with fresh headers |
| EmptyMessages.CopyIgnoresBuffer | src/org/jgroups/EmptyMessage.java:30-47 | a copy is the same whether or not the buffer is asked for, has length 0 and no payload, and copying a copy changes nothing more |
| ByteBuffers.Contents | src/org/jgroups/NioMessage.java:81 | the bytes between position and limit, `remaining()` of them |
| ByteBuffers.WrapArray | src/org/jgroups/NioMessage.java:100-103 | `ByteBuffer.wrap(b, off, len)` succeeds exactly for a non-null array and a range inside it, giving a heap buffer with `len` bytes remaining that are `b[off .. off + len)`; a null array is a NullPointerException and a range outside it an index error |
| ByteBuffers.DirectOf | src/org/jgroups/NioMessage.java:258-263 | `allocateDirect(n).put(tmp).flip()` is a direct buffer positioned at 0 holding exactly `tmp` |
| ByteBuffers.Get | src/org/jgroups/NioMessage.java:244 | `get(dst, 0, n)` hands out the next `n` remaining bytes and advances only the position |
| ByteBuffers.TransferSize | src/org/jgroups/NioMessage.java:241 | the transfer array holds at least 128 bytes and at least a tenth of what remains |
| ByteBuffers.TransferChunks | src/org/jgroups/NioMessage.java:240-246 | the copy loop writes exactly the buffer's remaining bytes in order, in non-empty chunks that fit the transfer array and add up to `remaining()`, and only the duplicate is drained |
| NioMessages.GetLength | src/org/jgroups/NioMessage.java:81 | `getLength()` is the number of bytes between position and limit, 0 without a buffer |
| NioMessages.GetArray | src/org/jgroups/NioMessage.java:84 | `getArray()` is the backing array exactly for a heap buffer, null for a direct one, and a NullPointerException without a buffer |
| NioMessages.GetOffset | tests/junit-functional/org/jgroups/tests/NioDirectMessageTest.java:58-66 | the offset the Message API promises: `getArray()[getOffset() .. getOffset() + getLength())` is exactly the payload, and 0 without an array |
| NioMessages.SetArray | src/org/jgroups/NioMessage.java:100-103 | `setArray(b, off, len)` succeeds exactly when `wrap` does, keeps the envelope, and leaves `len` bytes, `b[off .. off + len)`, as the payload |
| NioMessages.SetByteArray | src/org/jgroups/NioMessage.java:111-115 | `setArray(ByteArray)` ignores null and otherwise wraps the ByteArray's range |
| NioMessages.SetObject | src/org/jgroups/NioMessage.java:124-137 | null changes nothing; a byte array becomes the payload whole; a ByteArray goes to `setArray(ByteArray)`; any other object's serialised bytes become the payload, and a failed serialisation is an IllegalArgumentException |
| NioMessages.GetObjectAsWritten | src/org/jgroups/NioMessage.java:154-161 | without an array the object is null; a failure is an IllegalArgumentException; the bytes handed to the deserialiser start at the as-written `getOffset()`, so the result agrees with the corrected `getObject` only when the buffer's position is 0 |
| NioMessages.GetObject | src/org/jgroups/NioMessage.java:154-161 | corrected `getObject`: without an array the object is null; otherwise it is rebuilt from exactly the payload bytes, and a failure is an IllegalArgumentException |
| NioMessages.GetObjectAsWrittenReadsHello | src/org/jgroups/NioMessage.java:80 | after `setArray("hello world", 6, 5)`, a deserialiser reading the first byte gets 'h' from the as-written `getObject` and 'w' from the corrected one |
| NioMessages.SetObjectThenGetObject | src/org/jgroups/NioMessage.java:124-161 | an object stored with `setObject` comes back from `getObject`, as written and corrected, whenever the deserialiser inverts the serialiser on it |
| NioMessages.Copy | src/org/jgroups/NioMessage.java:176-190 | a copy keeps destination, source and both flag sets; with `copy_buffer` it has the same buffer contents and length, otherwise no buffer |
| NioMessages.WritePayload | src/org/jgroups/NioMessage.java:222-249 | `writePayload` emits exactly `sizeOfPayload()` bytes: `-1` without a buffer, else the remaining count, the direct flag and the remaining bytes |
| NioMessages.WritePayloadChunked | src/org/jgroups/NioMessage.java:226-249 | the array branch and the chunked-copy branch of `writePayload` both emit the same bytes: the count, the flag and the contents |
| NioMessages.ReadPayload | src/org/jgroups/NioMessage.java:251-266 | `readPayload` keeps the envelope, leaves the message unchanged on a negative count, and fails only with an EOFException |
| NioMessages.PayloadRoundTrip | src/org/jgroups/NioMessage.java:222-266 | reading what `writePayload` wrote gives no buffer for no buffer, or otherwise a buffer of the same kind, positioned at 0, with the same contents and length, and leaves the bytes that follow |
| NioMessages.HeapAndDirectDifferInFlag | src/org/jgroups/NioMessage.java:226-249 | a heap and a direct buffer with the same contents are written identically except for the direct flag |
| NioDirectMessages.New | src/org/jgroups/NioDirectMessage.java:26-39 | a new message has no buffer and starts with `use_heap_memory` cleared |
| NioDirectMessages.UseHeapMemory | src/org/jgroups/NioDirectMessage.java:75 | `useHeapMemory(b)` sets the flag and leaves the buffer |
| NioDirectMessages.GetContents | src/org/jgroups/NioDirectMessage.java:143-150 | `getContents()` returns `getLength()` bytes, the remaining ones, and is a NullPointerException without a buffer |
| NioDirectMessages.GetArray | src/org/jgroups/NioDirectMessage.java:79 | `getArray()` (heap array or a copy of the contents) read at `getOffset()` for `getLength()` bytes is exactly the payload; it throws only without a buffer |
| NioDirectMessages.GetObject | src/org/jgroups/NioDirectMessage.java:92-102 | null without a buffer; otherwise the object is rebuilt from the remaining bytes, and a failure is an IllegalArgumentException |
| NioDirectMessages.WritePayload | src/org/jgroups/NioDirectMessage.java:114-130 | `writePayload` emits `-1` without a buffer, else the remaining count, the `use_heap_memory` flag and the remaining bytes |
| NioDirectMessages.WritePayloadChunked | src/org/jgroups/NioDirectMessage.java:114-130 | the chunked copy loop emits exactly those bytes, whatever the kind of buffer |
| NioDirectMessages.CreateBuffer | src/org/jgroups/NioDirectMessage.java:152-155 | the receive buffer holds exactly the read bytes from position 0, on the heap when `use_heap_memory` is set and in direct memory otherwise |
| NioDirectMessages.ReadPayload | src/org/jgroups/NioDirectMessage.java:132-141 | `readPayload` keeps the envelope, leaves the message unchanged on a negative count, and fails only with an EOFException |
| NioDirectMessages.PayloadRoundTrip | src/org/jgroups/NioDirectMessage.java:114-141 | reading what `writePayload` wrote gives the same contents and the sender's `use_heap_memory`, in a buffer of the kind that flag names; no buffer stays no buffer |
| NioDirectMessages.ArrayViewAfterSetArray | tests/junit-functional/org/jgroups/tests/NioDirectMessageTest.java:50-66 | after `setArray("hello world", 6, 5)` the array view at `getOffset()` for `getLength()` bytes reads "world", with heap or direct memory |
| ObjectMessages.Swizzle | src/org/jgroups/ObjectMessageSerializable.java:109-119 | `swizzle()` does nothing when bytes are cached or there is no object; otherwise it caches the object's serialised bytes, and a failed serialisation is a RuntimeException that caches nothing; it never touches the envelope or the object |
| ObjectMessages.GetLength | src/org/jgroups/ObjectMessageSerializable.java:63-73 | `getLength()` is 0 without an object and the streamable size of a SizeStreamable; for any other object it succeeds exactly when serialising does, and is then the length of the bytes it leaves cached |
| ObjectMessages.Copy | src/org/jgroups/ObjectMessageSerializable.java:90-105 | a copy keeps destination, source and both flag sets, holds the object only with `copy_buffer`, and never inherits the cached bytes |
| ObjectMessages.SwizzleIdempotent | src/org/jgroups/ObjectMessageSerializable.java:109-119 | once `swizzle()` has succeeded, calling it again changes nothing, and the cache it fills holds bytes that deserialise to the message's object |
| ObjectMessages.GetLengthCached | src/org/jgroups/ObjectMessageSerializable.java:63-73 | asking `getLength()` again on the message it leaves gives the same length and changes nothing more |
| ObjectMessages.ObjSizeIsExact | src/org/jgroups/ObjectMessageSerializable.java:121-155 | `objSize()` succeeds exactly when `write` does, counts exactly the bytes `write` emits, and both leave the message in the same state |
| ObjectMessages.RoundTrip | src/org/jgroups/ObjectMessageSerializable.java:141-169 | what `write` emits reads back into a fresh message as the same object (or none), with the same cached bytes for a serialised object, and leaves the bytes that follow |
| ObjectMessages.NoObjectRoundTrip | src/org/jgroups/ObjectMessageSerializable.java:153-164 | no object is written as `false, -1` and reads back as a message with no object and no cached bytes |
| ObjectMessages.StreamableRoundTrip | src/org/jgroups/ObjectMessageSerializable.java:142-160 | a SizeStreamable is written in the generic streamable form and reads back as the same object, with nothing cached |
| ObjectMessages.SerializedRoundTrip | src/org/jgroups/ObjectMessageSerializable.java:147-168 | any other object is serialised once; its bytes fit an int length, deserialise to the object, and read back as the same object with those bytes cached |
| ObjectMessages.CopyWritesTheSame | src/org/jgroups/ObjectMessageSerializable.java:90-155 | a copy made with `copy_buffer` from a message with nothing cached writes exactly the bytes the original writes, and fails exactly when the original does |
| ByteArrayPayloads.View | src/org/jgroups/ByteArrayPayload.java:28-35 | the bytes a payload stands for exist exactly when it has an array and the range `[offset, offset + length)` lies inside it, and there are `length` of them |
| NioMessages.OffsetAsWrittenMissesPosition | src/org/jgroups/NioMessage.java:80 | after `setArray("hello world", 6, 5)` the as-written `getOffset()` is 0, so the array view reads "hello"; the corrected offset is 6 and the view reads "world", the bytes the message carries |
| NioDirectMessages.SizeOfPayload | src/org/jgroups/NioDirectMessage.java:110-112 | corrected `sizeOfPayload()`: exactly the number of bytes `writePayload` emits |
| NioDirectMessages.SizeAsWrittenOvercounts | src/org/jgroups/NioDirectMessage.java:110-112 | as written, the size is one byte more than what `writePayload` emits for every message with a buffer, and right only without one |
| NioDirectMessages.Copy | src/org/jgroups/NioDirectMessage.java:80 | a copy made through the overridden `create(dest)` is an NioDirectMessage with the same destination, source, flags and, with `copy_buffer`, the same buffer; its `use_heap_memory` starts cleared |
| NioDirectMessages.CopyAsWrittenChangesType | src/org/jgroups/NioMessage.java:176-177 | as written, `copy` builds `new NioMessage(dest)`, so copying an NioDirectMessage gives an NIO_MSG; the corrected copy keeps NIO_DIRECT_MSG |

## Left out

- The envelope (`BaseMessage`, `Headers`, address and header serialisation) is not part of this model: it is an opaque record, and its wire form is an opaque prefix of bytes.
- `Util` (`computeFragOffsets`, `objectToByteBuffer`, `objectFromByteBuffer`, `size`, the generic streamable reader and writer), `Bits` and `ByteArray` are not part of this model. The planner is defined from its tests; the others are parameters (`CustomCodec`, `ObjCodec`, `BitsCodec`, deserialisers passed to `getObject`), and the round trips are proved for every parameter that reads back what it writes.
- FragPlanner.ComputeFragOffsets: requires a fragment size of at least 1, because its behaviour for 0 or a negative size is not pinned down by anything in the source.
- `BaseDataOutputStream`, which owns the filter's cursor `pos`, is not part of this model. The model takes it that every write on the filter reaches `write(int)` or `write(byte[], int, int)`, and represents a serialiser by the sequence of those calls.
- PartialOutput.ForwardsExactlyTheWindow: stated for a non-negative offset and length only, the only windows a fragment uses. A filter with a negative offset or length is not covered.
- FragmentedMessages.FragmentRoundTrip and FragmentedMessages.SendReceiveGathers: stated for windows whose end `offset + length` fits an int. Beyond that the filter's `end_range` wraps and the fragment carries no bytes, as FragmentedMessages.WritePayloadIsWindow states.
- FragmentedMessages.SendAll: models the sender writing each fragment's payload section (`writePayload`) only. The test calls `writeTo`, which puts each fragment's envelope in front of it; the envelope is not part of this model, so the per-fragment envelope bytes are left out of the stream.
- FragmentedMessages.ReceiveAll: models the receiver reading each fragment's payload section (`readPayload`) only. The envelope `readFrom` reads first is left out, as for FragmentedMessages.SendAll; FragmentedMessages.SendReceiveGathers and FragmentedMessages.FragmentationRoundTrip inherit this.
- On an exception the model returns the exception alone. Bytes Java has already written to the stream, and fields it has already assigned, are dropped. The members this affects are listed one per line below.
- BytesMessages.ReadPayload: on an early end of stream, the new zero-filled `buf` Java has assigned before `readFully` is dropped.
- FragmentedMessages.ReadPayload: on an early end of stream, the `length` and the zero-filled `array` Java has assigned before `readFully` are dropped.
- NioDirectMessages.ReadPayload: on an early end of stream, the `use_heap_memory` flag Java has assigned before `readFully` is dropped.
- ByteArrayPayloads.ReadFrom: on an early end of stream, the zero-filled `buf` Java has assigned before `readFully` is dropped.
- ObjectMessages.Read: on an early end of stream or a failed deserialisation, the `serialized_obj` Java has assigned before the failure is dropped.
- ObjectMessages.Write: when serialisation fails, the boolean `false` Java has already written is dropped.
- ByteArrayPayloads.WriteTo: when `out.write` fails (a null array or a view outside it), the four length bytes Java has already written are dropped.
- FragmentedMessages.WritePayload: with a null original, the four length bytes Java writes before `original_msg.writeTo` throws are dropped.
- CompositeMessages.ChunksFrom: at a null slot or a view outside its array, the bytes of the earlier views Java has already written are dropped.
- CompositeMessages.WritePayload: on a failing view, the count and the earlier views' bytes Java has already written are dropped.
- Payloads.WriteTo: when a composite's child fails, the short count and the earlier children's bytes Java has already written are dropped.
- Payloads.WriteFrom: when a child fails, the earlier children's type bytes and bytes, and the failing child's type byte, are dropped.
- Payloads.ReadFrom: when a composite's child cannot be read, the `index` and the partly filled array Java has already assigned are dropped.
- ArrayDeques.RemoveLast: when `index - 1` is outside the array (a negative count, which `readFrom` can store from `readShort()`), Java's `payloads[--index]` has already decremented `index` when the ArrayIndexOutOfBoundsException is thrown. The model returns the exception alone, with the count unchanged.
- CompositePayloads.Remove: inherits ArrayDeques.RemoveLast's dropped decrement.
- ArrayDeques.Store: with a negative count, Java's `payloads[index++]=pl` bumps `index` before the ArrayIndexOutOfBoundsException. The model returns the exception alone, with the count unchanged. A negative count is reachable, because `readFrom` stores `readShort()` as the count.
- BytesMessages.WritePayload: when the view lies outside the array it returns the exception alone. The four length bytes Java has already written at that point are dropped.
- The composite payload's `size()` and `serializedSize()` (src/org/jgroups/CompositePayload.java:128-140), and ByteArrayPayload's `serializedSize()` (`4 + length`), add in a Java int, which wraps once the true value exceeds 2^31-1. The model adds unbounded integers, so its sizes are the true byte counts. They are Java's values only while those fit an int. The members that carry this are listed one per line below.
- Payloads.Size: the sum over the children is not wrapped to an int.
- Payloads.SerializedSize: the two count bytes plus, per child, one type byte and its serialized size are not wrapped to an int.
- CompositePayloads.SizeIsSum: equates `size()` with the unbounded sum. Java's value is that sum wrapped to an int.
- CompositePayloads.SerializedSizeIsExact: states that the unbounded `serializedSize()` equals the number of bytes `writeTo` emits. Java's value agrees only while that count fits an int.
- CompositePayloads.SerializedSizeFromIsExact: is the loop-level form of the same claim, with the same limit.
- CompositePayloads.AddExtendsSizeAndInput: the new size is the old size plus `x`'s, without Java's wrap. The input half is exact.
- CompositePayloads.AddExtendsSize: gives the old size plus `x`'s, without Java's wrap.
- CompositePayloads.AddAtHeadExtendsSizeAndInput: the new size is `x`'s size plus the old one, without Java's wrap. The input half is exact.
- CompositePayloads.AddAtHeadExtendsSize: the same for `addAtHead`.
- CompositePayloads.SerializationKeepsSizes: the "serialized size equals the bytes written" half holds for Java's int only while the count fits. The read-back half is stated only for trees whose composites have at most 32767 children (see "Findings").
- CompositePayloads.RoundTrip: stated only for trees whose every composite has at most 32767 children. `writeShort` cuts a larger count to sixteen bits, and the tree does not read back (see "Findings").
- CompositePayloads.RoundTripFrom: carries the same bound on every nested composite, for the same reason.
- CompositePayloads.CompositeReadBack: requires a count of at most 32767, for the same reason; CompositePayloads.WideCompositeLosesChildren states what happens past it.
- The fixed-overhead sizes also add in a Java int and are not wrapped. These are the `sizeOfPayload()` of BytesMessage, NioMessage, NioDirectMessage and FragmentedMessage, ByteArrayPayload's `serializedSize()`, and `objSize()`. Each adds a few header bytes to a length, so it differs from Java's value only for a length within 9 bytes of 2^31-1. The exactness clauses that carry this are listed one per line below.
- ByteArrayPayloads.SerializedSizeIsExact: `4 + length` equals the bytes written, unbounded. Java's int agrees only while the sum fits.
- BytesMessages.WritePayload: its clause that the output length is `sizeOfPayload()` holds for Java's int only while the sum fits.
- NioMessages.WritePayload: its clause that the output length is `sizeOfPayload()` holds for Java's int only while the sum fits.
- NioDirectMessages.SizeOfPayload: the corrected size equals the bytes written, unbounded.
- FragmentedMessages.SizeOfPayloadIsExact: `4 + length` is unbounded.
- ObjectMessages.ObjSizeIsExact: the header bytes plus the object's length are unbounded.
- PartialOutput.Run: its own contract states only that the window is fixed. What a run forwards is stated by PartialOutput.ForwardsExactlyTheWindow.
- FragmentedMessages.WritePayload: its own contract states the null-original case and the length prefix. The window it emits is stated by FragmentedMessages.WritePayloadIsWindow.
- `FragmentedMessage.copy`, `create` and `createMessage` are inherited or trivial and are not modelled. `readPayload` stores the chunk in a field named `array`, which `BytesMessage` does not declare; the received chunk is its own field here.
- FragHeaders.MAGIC_ID: `getMagicId()` is the constant 52, with no contract of its own. `create()` and `toString()` are not modelled.
- CompositeMessages.GetLength: its own contract states only that the result is an int. The value is stated by CompositeMessages.GetLengthIsTotal.
- CompositeMessages.WritePayload: its own contract states only the count prefix. The rest is stated by CompositeMessages.WritePayloadIsConcatenation.
- `CompositeMessage.size()` (src/org/jgroups/CompositeMessage.java:231-238) and `readFrom` (src/org/jgroups/CompositeMessage.java:258-266) are not modelled. `size()` reads `arrays[index]` on every iteration of its loop, and `readFrom` reads the count but never the arrays. Neither has a contract that code could meet, so there is no encode/decode round trip for CompositeMessage.
- `CompositeMessageTest` lines 18-24 use an API that `CompositeMessage` does not have. `CompositePayloadTest` uses `size()` as an element count, which contradicts `CompositePayload.size()` summing bytes; the element count is modelled instead.
- Payloads.ReadFrom: its own contract states only that input is consumed. What it reads back is stated by CompositePayloads.RoundTrip and ByteArrayPayloads.RoundTrip.
- Payloads.CopyFrom and Payloads.ReadChildren are the loops of `copy` and `readFrom`. Their own contracts state lengths only; Payloads.CopyFromAt, CompositePayloads.RoundTripFrom and CompositePayloads.CanonFromAt state what they hold.
- `BytesMessage`: `setArray(ByteArray)`, `setObject` of a ByteArray or of an object needing Java serialisation, `getObject`, and `writeToNoAddrs` are not modelled. The first three hand off to `ByteArray` or `Util`; the last to the envelope.
- `NioMessage.createBuffer`, which `NioDirectMessage.createBuffer` calls for heap memory, is not modelled; it is taken to be `ByteBuffer.wrap` of the read bytes.
- The `NioDirectMessageTest` cases expect `setArray` to honour `use_heap_memory`, which `setArray` does not do: `setArray` is inherited from `NioMessage` and always wraps a heap array. The model follows the code.
- `ByteBuffer` internals, direct-memory allocation and `ByteBuffer.wrap`'s own checks are library behaviour. A buffer is a value, and `duplicate()` is the value itself, since nothing here mutates it.
- ObjectMessages.Write, ObjectMessages.Read and ObjectMessages.ObjSize: their own contracts state only that the envelope and object are kept. What they emit, read and count is stated by ObjectMessages.RoundTrip, its three cases, and ObjectMessages.ObjSizeIsExact.
- The superclass `ObjectMessage` (its `setObject`, `getObject`, `objSize` and the SizeStreamable branch) is not modelled. The streamable size and format are the `ObjCodec` parameter, and `copy` is taken to store the object with nothing cached.
- `getObject(ClassLoader)` class loading, `toString`, printing, concurrency (the composite is documented as unsynchronised), the FRAG4 protocol, JChannel and the network are not modelled.

## Findings

| source | as written | input that shows it | evidently intended | confidence | as-written member | corrected member |
|---|---|---|---|---|---|---|
| src/org/jgroups/ByteArrayPayload.java:78-84 | `set` checks `off < 0`, `off >= b.length` and the int sum `off + len > b.length`; it never checks `len < 0`, and the sum can wrap | `set(new byte[1], 0, -1)` is accepted: `serializedSize()` says 3 while `writeTo` emits 4 bytes. `set(new byte[2], 1, Integer.MAX_VALUE)` is accepted because `1 + MAX_VALUE` wraps negative | only views inside the array are accepted | not executed | ByteArrayPayloads.SetAsWritten, shown by ByteArrayPayloads.SetAsWrittenAcceptsNegativeLength and ByteArrayPayloads.SetAsWrittenAcceptsWrappingEnd | ByteArrayPayloads.Set |
| src/org/jgroups/CompositeMessage.java:142-146 | `add` increments `index` in the same statement in which `Objects.requireNonNull` throws, so the count rises first | `add(null)` throws NullPointerException, and the message now counts a null slot: `hasPayload()` is true, while `getLength()` and `writePayload` throw | null is refused before anything changes, as `addAtHead` does | not executed | CompositeMessages.AddAsWritten, shown by CompositeMessages.AddNullCorruptsCount | CompositeMessages.Add |
| src/org/jgroups/NioMessage.java:80 | `getOffset()` is `buf.arrayOffset()`, ignoring the buffer's position; `getObject()` (line 156) deserialises the view it names | after `setArray("hello world".getBytes(), 6, 5)` the view `getArray()[getOffset() .. + getLength())` reads "hello", not the payload "world", and `getObject()` deserialises "hello" | `arrayOffset() + position()`, the offset `NioDirectMessageTest` lines 58-66 expect | not executed | NioMessages.GetOffsetAsWritten and NioMessages.GetObjectAsWritten, shown by NioMessages.OffsetAsWrittenMissesPosition and NioMessages.GetObjectAsWrittenReadsHello | NioMessages.GetOffset and NioMessages.GetObject |
| src/org/jgroups/NioDirectMessage.java:110-112 | `sizeOfPayload()` adds one byte to NioMessage's size, which already counts the flag byte | a message with a 5-byte buffer reports 11 while `writePayload` emits 10 bytes | the size equals the bytes written, as `MessageTest` lines 432-437 check for messages in general | not executed | NioDirectMessages.SizeOfPayloadAsWritten, shown by NioDirectMessages.SizeAsWrittenOvercounts | NioDirectMessages.SizeOfPayload |
| src/org/jgroups/NioMessage.java:176-177 | `copy` builds `new NioMessage(dest_addr)`, so NioDirectMessage's override of `create(dest)` is never used | `copy(true, true)` of an NioDirectMessage returns an NioMessage, of type NIO_MSG | the copy has the original's class, through `create(dest)` | not executed | NioDirectMessages.CopyAsWritten, shown by NioDirectMessages.CopyAsWrittenChangesType | NioDirectMessages.Copy |
| src/org/jgroups/CompositePayload.java:143 | `writeTo` writes the count with `writeShort`, and `readFrom` (line 152) reads it back with `readShort`; `add` puts no limit on the count | a composite of 32768 children is written with count bytes 0x80 0x00; the receiver reads -32768, allocates 2 slots, reads no children and leaves all their bytes on the stream | a tree either reads back as written or is refused when written | not executed | CompositePayloads.WideCompositeLosesChildren | CompositePayloads.WriteToChecked, with CompositePayloads.CheckedRoundTrip |
