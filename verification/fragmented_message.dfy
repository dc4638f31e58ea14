/**
 * FragmentedMessage: a view of the bytes `[offset, offset + length)` of another
 * message's serialised form.  On the sending side it marshals only that
 * window, by running the original's serialiser through a PartialOutputStream;
 * on the receiving side it is just a length-prefixed chunk of bytes.
 *
 * The original message is represented by the write calls its `writeTo`
 * makes on its output stream; `Serialized` of those calls is its wire form.
 */
module FragmentedMessages {
  import opened JavaLang
  import opened Wire
  import opened Envelopes
  import opened PartialOutput
  import opened FragPlanner

  /** `original` is the message viewed (null on a received fragment); `chunk`
      is the byte array filled in by `readPayload`. */
  datatype Fragment = Fragment(original: Option<seq<Write>>, offset: int, length: int, chunk: Option<seq<byte>>)

  predicate ValidFragment(f: Fragment)
  {
    f.original.Some? ==> ValidWrites(f.original.value)
  }

  /** `new FragmentedMessage(original_msg, off, len)`: records the view, copies nothing. */
  function Create(original: seq<Write>, off: int, len: int): (f: Fragment)
    ensures f.original == Some(original) && f.chunk == None
  {
    Fragment(Some(original), off, len, None)
  }

  /** `new FragmentedMessage()`, the instance a receiver deserialises into. */
  const Fresh: Fragment := Fragment(None, 0, 0, None)

  function GetType(f: Fragment): MessageType
  {
    FragMsg
  }

  /** `sizeOfPayload()`: the int length prefix plus the window. */
  function SizeOfPayload(f: Fragment): int
  {
    INT_SIZE + f.length
  }

  /** `writePayload(out)`: the length goes straight to the real sink, then the
      whole original is serialised through a filter on `[offset, offset + length)`.
      A fragment without an original throws NullPointerException. */
  function WritePayload(f: Fragment): (r: Result<seq<byte>>)
    requires ValidFragment(f)
    ensures r.Ok? <==> f.original.Some?
    ensures r.Throws? ==> r.ex == NullPointer
    ensures r.Ok? ==> |r.value| >= INT_SIZE && r.value[..INT_SIZE] == WriteInt(f.length)
  {
    match f.original
    case None => Throws(NullPointer)
    case Some(ws) =>
      var filtered := Run(PartialOutput.Create(f.offset, f.length), ws);
      Ok(WriteInt(f.length) + filtered.forwarded)
  }

  /** `readPayload(in)`: reads the length; a positive length is followed by
      exactly that many bytes, which become the fragment's chunk.  The length
      field is set whatever its sign; the chunk is left alone otherwise. */
  function ReadPayload(f: Fragment, input: seq<byte>): Result<(Fragment, seq<byte>)>
  {
    var (len, rest) :- ReadInt(input);
    if len > 0 then
      var (bytes, rest') :- ReadFully(rest, len);
      Ok((f.(length := len, chunk := Some(bytes)), rest'))
    else
      Ok((f.(length := len), rest))
  }

  /** What `readPayload` reads, stated apart from the function so that the
      proofs about whole streams of fragments do not have to carry it. */
  lemma ReadPayloadReads(f: Fragment, input: seq<byte>)
    ensures var r := ReadPayload(f, input);
            && (r.Ok? <==> |input| >= INT_SIZE && (ReadInt(input).value.0 > 0 ==> |input| >= INT_SIZE + ReadInt(input).value.0))
            && (r.Ok? ==> var (g, rest) := r.value;
                          && g.original == f.original && g.offset == f.offset
                          && g.length == ReadInt(input).value.0
                          && (g.length > 0 ==> g.chunk == Some(input[INT_SIZE..INT_SIZE + g.length]) && rest == input[INT_SIZE + g.length..])
                          && (g.length <= 0 ==> g.chunk == f.chunk && rest == input[INT_SIZE..]))
            && (r.Throws? ==> r.ex == EndOfStream)
  {
    var r := ReadInt(input);
    if r.Ok? && r.value.0 > 0 && |input| >= INT_SIZE + r.value.0 {
      var (len, rest) := r.value;
      assert rest[..len] == input[INT_SIZE..INT_SIZE + len];
      assert rest[len..] == input[INT_SIZE + len..];
    }
  }

  /** The bytes a received fragment contributes to reassembly. */
  function ChunkBytes(f: Fragment): seq<byte>
  {
    if f.chunk.Some? then f.chunk.value else []
  }

  /** A fragment constructed with `getType() == FRAG_MSG`, viewing exactly
      what it was given. */
  lemma CreateRecords(original: seq<Write>, off: int, len: int)
    ensures GetType(Create(original, off, len)) == FragMsg
    ensures Create(original, off, len).offset == off && Create(original, off, len).length == len
  {
  }

  /** `writePayload` emits the four-byte length and then exactly the bytes of
      the original's serialised form that lie in the window (fewer when the
      original is shorter than `offset + length`).  When `offset + length`
      overflows an int the filter forwards nothing and only the length is
      written. */
  lemma {:induction false} WritePayloadIsWindow(ws: seq<Write>, off: int, len: int)
    requires ValidWrites(ws) && 0 <= off && 0 <= len && IsInt(off) && IsInt(len)
    ensures var S := Serialized(ws);
            IsInt(off + len) ==>
            WritePayload(Create(ws, off, len)) == Ok(WriteInt(len) + S[Min(|S|, off)..Min(|S|, off + len)])
    ensures !IsInt(off + len) ==> WritePayload(Create(ws, off, len)) == Ok(WriteInt(len))
  {
    ForwardsExactlyTheWindow(off, len, ws);
    var filtered := Run(PartialOutput.Create(off, len), ws);
    assert WritePayload(Create(ws, off, len)) == Ok(WriteInt(len) + filtered.forwarded);
    if !IsInt(off + len) {
      assert filtered.forwarded == [];
      assert WriteInt(len) + [] == WriteInt(len);
    }
  }

  /** `sizeOfPayload()` is the number of bytes `writePayload` emits whenever the
      original is long enough to fill the window and the window's end fits an
      int; past that, the payload is the bare length. */
  lemma SizeOfPayloadIsExact(ws: seq<Write>, off: int, len: int)
    requires ValidWrites(ws) && 0 <= off && 0 <= len && IsInt(off) && IsInt(len) && off + len <= |Serialized(ws)|
    ensures IsInt(off + len) ==> |WritePayload(Create(ws, off, len)).value| == SizeOfPayload(Create(ws, off, len))
    ensures !IsInt(off + len) ==> |WritePayload(Create(ws, off, len)).value| == INT_SIZE
  {
    WritePayloadIsWindow(ws, off, len);
  }

  /** A written fragment read back into a fresh instance carries the window's
      bytes as its chunk and consumes exactly its own bytes. */
  lemma {:induction false} FragmentRoundTrip(ws: seq<Write>, off: int, len: int, rest: seq<byte>)
    requires ValidWrites(ws) && 0 <= off && 0 < len && IsInt(off + len) && off + len <= |Serialized(ws)|
    ensures var S := Serialized(ws);
            ReadPayload(Fresh, WritePayload(Create(ws, off, len)).value + rest)
            == Ok((Fragment(None, 0, len, Some(S[off..off + len])), rest))
  {
    var S := Serialized(ws);
    var window := S[off..off + len];
    WritePayloadIsWindow(ws, off, len);
    assert Min(|S|, off) == off && Min(|S|, off + len) == off + len;
    ConcatAssoc(WriteInt(len), window, rest);
    ReadWindow(len, window, rest);
  }

  /** A positive length followed by that many bytes reads into a fresh
      fragment as its chunk. */
  lemma ReadWindow(len: int, window: seq<byte>, rest: seq<byte>)
    requires 0 < len && IsInt(len) && |window| == len
    ensures ReadPayload(Fresh, WriteInt(len) + (window + rest)) == Ok((Fragment(None, 0, len, Some(window)), rest))
  {
    ReadWriteInt(len, window + rest);
    assert (window + rest)[..len] == window;
    assert (window + rest)[len..] == rest;
  }

  // -------------------------------------------------------------- reassembly

  /** One fragment per planned window, each viewing the same original. */
  function Fragments(ws: seq<Write>, plan: seq<Range>): (frs: seq<Fragment>)
    ensures |frs| == |plan|
    ensures forall i :: 0 <= i < |frs| ==> frs[i] == Create(ws, plan[i].low, plan[i].high)
  {
    if |plan| == 0 then [] else [Create(ws, plan[0].low, plan[0].high)] + Fragments(ws, plan[1..])
  }

  /** The sender writes every fragment, in order, to one stream; the first
      failure wins. */
  function SendAll(frs: seq<Fragment>): (r: Result<seq<byte>>)
    requires forall i :: 0 <= i < |frs| ==> ValidFragment(frs[i])
    ensures r.Ok? ==> |r.value| >= INT_SIZE * |frs|
  {
    if |frs| == 0 then Ok([])
    else
      var first :- WritePayload(frs[0]);
      var others :- SendAll(frs[1..]);
      Ok(first + others)
  }

  /** The receiver reads `n` fragments from the stream, each into a fresh
      instance, and appends their chunks in order; it returns the chunks and
      what is left of the stream. */
  function ReceiveAll(input: seq<byte>, n: nat): (r: Result<(seq<byte>, seq<byte>)>)
    ensures r.Throws? ==> r.ex == EndOfStream
    ensures r.Ok? ==> |r.value.1| <= |input| - INT_SIZE * n
  {
    if n == 0 then Ok(([], input))
    else
      ReadPayloadReads(Fresh, input);
      var (f, rest) :- ReadPayload(Fresh, input);
      var (others, left) :- ReceiveAll(rest, n - 1);
      Ok((ChunkBytes(f) + others, left))
  }

  /** The first window's chunk in front of the others' is the whole gather. */
  lemma FirstChunk(S: seq<byte>, plan: seq<Range>, f: Fragment)
    requires |plan| > 0 && InBounds(plan, |S|)
    requires f.chunk == Some(S[plan[0].low..plan[0].low + plan[0].high])
    ensures ChunkBytes(f) + Gather(S, plan[1..]) == Gather(S, plan)
  {
    GatherFirst(S, plan);
  }

  /** Receiving `n` fragments is receiving the first, then `n - 1` more. */
  lemma ReceiveStep(input: seq<byte>, n: nat, f: Fragment, mid: seq<byte>, others: seq<byte>, left: seq<byte>,
                    whole: seq<byte>)
    requires n > 0 && ReadPayload(Fresh, input) == Ok((f, mid))
    requires ReceiveAll(mid, n - 1) == Ok((others, left))
    requires whole == ChunkBytes(f) + others
    ensures ReceiveAll(input, n) == Ok((whole, left))
  {
  }

  lemma SendStep(frs: seq<Fragment>, first: seq<byte>, others: seq<byte>)
    requires |frs| > 0 && forall i :: 0 <= i < |frs| ==> ValidFragment(frs[i])
    requires WritePayload(frs[0]) == Ok(first) && SendAll(frs[1..]) == Ok(others)
    ensures SendAll(frs) == Ok(first + others)
  {
  }

  /** Non-empty windows inside the original, each ending at an offset that
      fits an int (so the filter's `offset + length` does not wrap). */
  predicate SendablePlan(plan: seq<Range>, size: int)
  {
    && InBounds(plan, size)
    && (forall i :: 0 <= i < |plan| ==> 0 < plan[i].high && IsInt(plan[i].low + plan[i].high))
  }

  lemma SendablePlanTail(plan: seq<Range>, size: int)
    requires |plan| > 0 && SendablePlan(plan, size)
    ensures SendablePlan(plan[1..], size)
  {
    forall i | 0 <= i < |plan| - 1
      ensures 0 <= plan[1..][i].low && 0 < plan[1..][i].high && IsInt(plan[1..][i].low + plan[1..][i].high)
      ensures plan[1..][i].low + plan[1..][i].high <= size
    {
      assert plan[1..][i] == plan[i + 1];
    }
  }

  /** What the fragments of a plan put on the stream: each window's length
      in front of the window's bytes, one window after another. */
  function Framed(S: seq<byte>, plan: seq<Range>): (r: seq<byte>)
    requires InBounds(plan, |S|)
    ensures |r| == INT_SIZE * |plan| + |Gather(S, plan)|
  {
    if |plan| == 0 then []
    else
      GatherFirst(S, plan);
      WriteInt(plan[0].high) + S[plan[0].low..plan[0].low + plan[0].high] + Framed(S, plan[1..])
  }

  /** The framed stream, regrouped as the first window's length in front of
      its bytes in front of everything after. */
  lemma FramedFirst(S: seq<byte>, plan: seq<Range>, tail: seq<byte>)
    requires |plan| > 0 && InBounds(plan, |S|)
    ensures InBounds(plan[1..], |S|)
    ensures var w := S[plan[0].low..plan[0].low + plan[0].high];
            Framed(S, plan) + tail == WriteInt(plan[0].high) + (w + (Framed(S, plan[1..]) + tail))
  {
    GatherFirst(S, plan);
    var w := S[plan[0].low..plan[0].low + plan[0].high];
    var more := Framed(S, plan[1..]);
    ConcatAssoc(WriteInt(plan[0].high) + w, more, tail);
    ConcatAssoc(WriteInt(plan[0].high), w, more + tail);
  }

  /** Sending the fragments of any in-bounds list of non-empty windows puts
      exactly the framed windows on the stream. */
  lemma {:induction false} SendAllFrames(ws: seq<Write>, plan: seq<Range>)
    requires ValidWrites(ws) && SendablePlan(plan, |Serialized(ws)|)
    ensures SendAll(Fragments(ws, plan)) == Ok(Framed(Serialized(ws), plan))
  {
    if |plan| > 0 {
      var S := Serialized(ws);
      SendablePlanTail(plan, |S|);
      SendAllFrames(ws, plan[1..]);
      var first := SendFirst(ws, plan);
    } else {
      assert Fragments(ws, plan) == [];
    }
  }

  /** Reading as many fragments as a framed stream holds yields the windows'
      bytes back to back and consumes exactly the framed stream. */
  lemma {:induction false} ReceiveFrames(S: seq<byte>, plan: seq<Range>, tail: seq<byte>)
    requires SendablePlan(plan, |S|)
    ensures ReceiveAll(Framed(S, plan) + tail, |plan|) == Ok((Gather(S, plan), tail))
  {
    if |plan| > 0 {
      SendablePlanTail(plan, |S|);
      ReceiveFrames(S, plan[1..], tail);
      var w := S[plan[0].low..plan[0].low + plan[0].high];
      var mid := Framed(S, plan[1..]) + tail;
      FramedFirst(S, plan, tail);
      ReadWindow(plan[0].high, w, mid);
      var f := Fragment(None, 0, plan[0].high, Some(w));
      FirstChunk(S, plan, f);
      ReceiveStep(Framed(S, plan) + tail, |plan|, f, mid, Gather(S, plan[1..]), tail, Gather(S, plan));
    } else {
      assert Framed(S, plan) + tail == tail;
    }
  }

  /** Sending the fragments of any in-bounds list of non-empty windows and
      reading that many fragments back yields those windows' bytes back to
      back, with the stream consumed exactly. */
  lemma SendReceiveGathers(ws: seq<Write>, plan: seq<Range>, tail: seq<byte>)
    requires ValidWrites(ws) && SendablePlan(plan, |Serialized(ws)|)
    ensures var sent := SendAll(Fragments(ws, plan));
            sent.Ok? && ReceiveAll(sent.value + tail, |plan|) == Ok((Gather(Serialized(ws), plan), tail))
  {
    SendAllFrames(ws, plan);
    ReceiveFrames(Serialized(ws), plan, tail);
  }

  /** The stream for a plan is its first window's fragment followed by the
      stream for the rest of the plan. */
  lemma SendFirst(ws: seq<Write>, plan: seq<Range>) returns (first: seq<byte>)
    requires ValidWrites(ws) && |plan| > 0 && SendablePlan(plan, |Serialized(ws)|)
    requires SendAll(Fragments(ws, plan[1..])).Ok?
    ensures first == WriteInt(plan[0].high) + Serialized(ws)[plan[0].low..plan[0].low + plan[0].high]
    ensures SendAll(Fragments(ws, plan)) == Ok(first + SendAll(Fragments(ws, plan[1..])).value)
  {
    var r := plan[0];
    var S := Serialized(ws);
    var frs := Fragments(ws, plan);
    var later := Fragments(ws, plan[1..]);
    assert frs == [Create(ws, r.low, r.high)] + later;
    assert frs[1..] == later;
    WritePayloadIsWindow(ws, r.low, r.high);
    assert Min(|S|, r.low) == r.low && Min(|S|, r.low + r.high) == r.low + r.high;
    first := WritePayload(frs[0]).value;
    SendStep(frs, first, SendAll(later).value);
  }

  /** The fragmentation round trip: plan the windows of an original whose
      serialised form `S` fits an int, write one fragment per window to a
      stream, read as many fragments back and concatenate their chunks; the
      result is `S` exactly and the stream is consumed exactly. */
  lemma FragmentationRoundTrip(ws: seq<Write>, fragSize: int)
    requires ValidWrites(ws) && fragSize > 0 && IsInt(|Serialized(ws)|)
    ensures var S := Serialized(ws);
            var plan := ComputeFragOffsets(0, |S|, fragSize);
            var sent := SendAll(Fragments(ws, plan));
            sent.Ok? && ReceiveAll(sent.value, |plan|) == Ok((S, []))
  {
    var S := Serialized(ws);
    var plan := ComputeFragOffsets(0, |S|, fragSize);
    PlanSendable(|S|, fragSize);
    GatherPlanned(S, 0, |S|, fragSize);
    assert S[0..|S|] == S;
    SendAllFrames(ws, plan);
    ReceiveFrames(S, plan, []);
    assert Framed(S, plan) + [] == Framed(S, plan);
  }

  /** The plan of a range of int length cuts it into non-empty windows of
      int size that lie inside it. */
  lemma PlanSendable(size: int, fragSize: int)
    requires fragSize > 0 && 0 <= size && IsInt(size)
    ensures SendablePlan(ComputeFragOffsets(0, size, fragSize), size)
  {
    var plan := ComputeFragOffsets(0, size, fragSize);
    PlanTiles(0, size, fragSize);
    forall i | 0 <= i < |plan|
      ensures 0 <= plan[i].low && 0 < plan[i].high && IsInt(plan[i].low + plan[i].high) && plan[i].low + plan[i].high <= size
    {
    }
  }
}
