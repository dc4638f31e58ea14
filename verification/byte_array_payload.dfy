/**
 * ByteArrayPayload: a payload that is a view `[offset, offset + length)` of a
 * byte array.  Its wire form is an int length followed by the bytes of the
 * view; `copy` shares the array when the view is the whole array and copies
 * the view out otherwise.
 *
 * `set` is modelled twice: `SetAsWritten` follows the bounds check as the
 * code evaluates it, which lets a negative length (and an `off + len` that
 * wraps past INT_MAX) through; `Set` is the check with the length also
 * required to be non-negative, and it is the one the rest of the model uses.
 */
module ByteArrayPayloads {
  import opened JavaLang
  import opened Wire

  datatype ByteArrayPayload = ByteArrayPayload(buf: Option<seq<byte>>, offset: int, length: int)

  /** `new ByteArrayPayload()`: no array, offset and length 0. */
  const Empty: ByteArrayPayload := ByteArrayPayload(None, 0, 0)

  /** The states the corrected `set`, `readFrom` and the no-argument
      constructor leave behind: either no array and nothing to show, or a
      view that lies inside its array. */
  predicate Valid(p: ByteArrayPayload)
  {
    && (p.buf.None? ==> p.offset == 0 && p.length == 0)
    && (p.buf.Some? ==> 0 <= p.offset && 0 <= p.length && p.offset + p.length <= |p.buf.value| <= INT_MAX)
  }

  /** The bytes of the view, when it lies inside the array. */
  function View(p: ByteArrayPayload): (v: Option<seq<byte>>)
    ensures v.Some? <==> p.buf.Some? && 0 <= p.offset && 0 <= p.length && p.offset + p.length <= |p.buf.value|
    ensures v.Some? ==> |v.value| == p.length
  {
    if p.buf.Some? && 0 <= p.offset && 0 <= p.length && p.offset + p.length <= |p.buf.value|
    then Some(p.buf.value[p.offset..p.offset + p.length]) else None
  }

  /** `set(b, off, len)` as written: `off < 0` is rejected before `b` is
      touched, a null `b` then fails on `b.length`, and the remaining checks
      are done in int arithmetic, so a negative `len` or a wrapping
      `off + len` passes. */
  function SetAsWritten(b: Option<seq<byte>>, off: int, len: int): (r: Result<ByteArrayPayload>)
    requires IsInt(off) && IsInt(len) && (b.Some? ==> |b.value| <= INT_MAX)
    ensures r.Ok? <==> b.Some? && 0 <= off < |b.value| && AddInt(off, len) <= |b.value|
    ensures r.Ok? ==> r.value == ByteArrayPayload(b, off, len)
    ensures r.Throws? ==> r.ex == if 0 <= off && b.None? then NullPointer else IllegalArgument
  {
    if off < 0 then Throws(IllegalArgument)
    else if b.None? then Throws(NullPointer)
    else if off >= |b.value| || AddInt(off, len) > |b.value| then Throws(IllegalArgument)
    else Ok(ByteArrayPayload(b, off, len))
  }

  /** `set(b, off, len)` with the length required to be non-negative and the
      end of the view compared exactly: it accepts precisely the views that
      lie inside `b` and start at an existing element. */
  function Set(b: Option<seq<byte>>, off: int, len: int): (r: Result<ByteArrayPayload>)
    ensures r.Ok? <==> b.Some? && 0 <= off < |b.value| && 0 <= len && off + len <= |b.value|
    ensures r.Ok? ==> r.value == ByteArrayPayload(b, off, len)
    ensures r.Ok? && |b.value| <= INT_MAX ==> Valid(r.value)
    ensures r.Ok? ==> View(r.value) == Some(b.value[off..off + len])
    ensures r.Throws? ==> r.ex == if 0 <= off && b.None? then NullPointer else IllegalArgument
  {
    if off < 0 then Throws(IllegalArgument)
    else if b.None? then Throws(NullPointer)
    else if off >= |b.value| || len < 0 || off + len > |b.value| then Throws(IllegalArgument)
    else Ok(ByteArrayPayload(b, off, len))
  }

  /** `new ByteArrayPayload(buf)`: the whole array, which must be non-null
      and non-empty. */
  function OfArray(b: Option<seq<byte>>): (r: Result<ByteArrayPayload>)
    ensures r.Ok? <==> b.Some? && |b.value| > 0
    ensures r.Ok? ==> View(r.value) == b && r.value.offset == 0
    ensures r.Throws? ==> r.ex == if b.None? then NullPointer else IllegalArgument
  {
    if b.None? then Throws(NullPointer)
    else
      assert b.value[0..|b.value|] == b.value;
      Set(b, 0, |b.value|)
  }

  function Size(p: ByteArrayPayload): int { p.length }

  function SerializedSize(p: ByteArrayPayload): int { INT_SIZE + p.length }

  /** `writeTo`: the int length, then the bytes of the view when the length
      is positive.  A positive length over a null array fails. */
  function WriteTo(p: ByteArrayPayload): (r: Result<seq<byte>>)
    ensures r.Ok? <==> p.length <= 0 || View(p).Some?
    ensures r.Ok? && p.length <= 0 ==> r.value == WriteInt(p.length)
    ensures r.Ok? && p.length > 0 ==> r.value == WriteInt(p.length) + View(p).value
  {
    if p.length <= 0 then Ok(WriteInt(p.length))
    else if p.buf.None? then Throws(NullPointer)
    else
      var bytes :- WriteRange(p.buf.value, p.offset, p.length);
      assert bytes == p.buf.value[p.offset..p.offset + p.length];
      Ok(WriteInt(p.length) + bytes)
  }

  /** `readFrom`: an int `len`; when it is positive, exactly `len` bytes into
      a fresh array, which becomes the view with the offset left as it was.
      A length of zero or less changes nothing. */
  function ReadFrom(p: ByteArrayPayload, input: seq<byte>): (r: Result<(ByteArrayPayload, seq<byte>)>)
    ensures |input| < INT_SIZE ==> r == Throws(EndOfStream)
    ensures |input| >= INT_SIZE ==>
              var len := ReadInt(input).value.0;
              && (len <= 0 ==> r == Ok((p, input[INT_SIZE..])))
              && (len > 0 ==> (r.Ok? <==> |input| >= INT_SIZE + len))
              && (len > 0 && r.Ok? ==>
                    r.value == (p.(buf := Some(input[INT_SIZE..INT_SIZE + len]), length := len),
                                input[INT_SIZE + len..]))
    ensures r.Ok? ==> |r.value.1| <= |input| - INT_SIZE
  {
    var (len, rest) :- ReadInt(input);
    if len <= 0 then Ok((p, rest))
    else
      var (bytes, rest') :- ReadFully(rest, len);
      assert bytes == rest[..len] == input[INT_SIZE..INT_SIZE + len];
      assert rest' == input[INT_SIZE + len..];
      Ok((p.(buf := Some(bytes), length := len), rest'))
  }

  /** The bytes `getInput()` yields: a ByteArrayInputStream over `buf` from
      `offset` up to `min(offset + length, buf.length)`, which is empty when
      that end lies before the start.  A null array fails on `buf.length`,
      and a negative offset on the first read. */
  function GetInput(p: ByteArrayPayload): (r: Result<seq<byte>>)
    ensures p.buf.None? ==> r == Throws(NullPointer)
    ensures View(p).Some? && |p.buf.value| <= INT_MAX ==> r == Ok(View(p).value)
  {
    if p.buf.None? then Throws(NullPointer)
    else
      var end := Min(Wrap(p.offset + p.length), |p.buf.value|);
      if end <= p.offset then Ok([])
      else if p.offset < 0 then Throws(IndexOutOfBounds)
      else Ok(p.buf.value[p.offset..end])
  }

  /** `copy()`: the whole-array view is shared (through `set`, which rejects
      an empty array); any other view is copied out into a fresh array of
      `length` bytes, which `set(tmp, 0, tmp.length)` rejects when it is
      empty. */
  function Copy(p: ByteArrayPayload): (r: Result<ByteArrayPayload>)
    ensures p.buf.None? ==> r == Throws(NullPointer)
    ensures p.buf.Some? && p.offset == 0 && p.length == |p.buf.value| > 0 ==> r == Ok(p)
    ensures Valid(p) && p.buf.Some? && !(p.offset == 0 && p.length == |p.buf.value|) ==>
              if p.length == 0 then r == Throws(IllegalArgument)
              else r == Ok(ByteArrayPayload(View(p), 0, p.length))
    ensures r.Ok? ==> View(r.value) == View(p)
    ensures r.Ok? && Valid(p) ==> Valid(r.value)
  {
    if p.buf.None? then Throws(NullPointer)
    else if p.offset == 0 && p.length == |p.buf.value| then
      assert p.buf.value[0..p.length] == p.buf.value;
      Set(p.buf, p.offset, p.length)
    else if p.length < 0 then Throws(NegativeArraySize)
    else
      var tmp :- WriteRange(p.buf.value, p.offset, p.length);
      assert tmp == p.buf.value[p.offset..p.offset + p.length];
      assert tmp[0..|tmp|] == tmp;
      Set(Some(tmp), 0, |tmp|)
  }

  // ------------------------------------------------------------ properties

  /** For every state the corrected `set` admits, `serializedSize()` is the
      exact number of bytes `writeTo` emits. */
  lemma SerializedSizeIsExact(p: ByteArrayPayload)
    requires Valid(p)
    ensures WriteTo(p).Ok? && |WriteTo(p).value| == SerializedSize(p)
  {
  }

  /** Reading back what `writeTo` wrote into a fresh instance restores the
      offset, the length and the bytes of the view; an empty view comes back
      without an array. */
  lemma RoundTrip(p: ByteArrayPayload, rest: seq<byte>)
    requires Valid(p)
    ensures var r := ReadFrom(Empty, WriteTo(p).value + rest);
            && r.Ok? && r.value.1 == rest
            && Size(r.value.0) == Size(p) && SerializedSize(r.value.0) == SerializedSize(p)
            && (p.length > 0 ==> r.value.0 == ByteArrayPayload(View(p), 0, p.length))
            && (p.length == 0 ==> r.value.0 == Empty)
  {
    var w := WriteTo(p).value;
    if p.length > 0 {
      var v := View(p).value;
      assert w == WriteInt(p.length) + v;
      ReadWriteInt(p.length, v + rest);
      assert w + rest == WriteInt(p.length) + (v + rest);
      assert (w + rest)[INT_SIZE..INT_SIZE + p.length] == v;
      assert (w + rest)[INT_SIZE + p.length..] == rest;
    } else {
      assert w == WriteInt(p.length);
      ReadWriteInt(p.length, rest);
    }
  }

  /** The empty view keeps its array on the sender but arrives without one,
      so the receiver's `getInput()` fails where the sender's yields no
      bytes. */
  lemma EmptyViewLosesItsArray(b: seq<byte>, rest: seq<byte>)
    requires 0 < |b| <= INT_MAX
    ensures var p := ByteArrayPayload(Some(b), 1 % |b|, 0);
            var r := ReadFrom(Empty, WriteTo(p).value + rest);
            && Set(Some(b), 1 % |b|, 0) == Ok(p)
            && GetInput(p) == Ok([])
            && r.Ok? && GetInput(r.value.0) == Throws(NullPointer)
  {
    RoundTrip(ByteArrayPayload(Some(b), 1 % |b|, 0), rest);
  }

  /** What the as-written bounds check lets through: a view of length -1,
      whose `serializedSize()` (3) disagrees with the 4 bytes `writeTo`
      emits and which reads back with length 0 instead of -1. */
  lemma SetAsWrittenAcceptsNegativeLength()
    ensures var r := SetAsWritten(Some([1]), 0, -1);
            && r.Ok? && SerializedSize(r.value) == 3 && |WriteTo(r.value).value| == 4
            && ReadFrom(Empty, WriteTo(r.value).value) == Ok((Empty, []))
    ensures Set(Some([1]), 0, -1) == Throws(IllegalArgument)
  {
    var p := ByteArrayPayload(Some([1]), 0, -1);
    var w := WriteTo(p).value;
    assert w == WriteInt(-1);
    ReadWriteInt(-1, []);
    assert w + [] == w;
  }

  /** The as-written check also accepts a view whose end wraps past
      INT_MAX; the corrected one does not. */
  lemma SetAsWrittenAcceptsWrappingEnd()
    ensures SetAsWritten(Some([1, 2]), 1, INT_MAX).Ok?
    ensures Set(Some([1, 2]), 1, INT_MAX) == Throws(IllegalArgument)
  {
    assert AddInt(1, INT_MAX) == INT_MIN;
  }

  /** The construction cases the library's tests check. */
  lemma ExpectedCases(five: seq<byte>)
    requires |five| == 5
    ensures Set(None, 1, 2).Throws?
    ensures Set(Some(five), -1, 1).Throws?
    ensures Set(Some(five), 0, 6).Throws?
    ensures Set(Some(five), 2, 4).Throws?
    ensures Set(Some(five), 5, 0).Throws?
    ensures Set(Some(five), 0, 5).Ok? && Set(Some(five), 2, 3).Ok? && Set(Some(five), 4, 1).Ok?
  {
  }

  /** The same cases against the check as written: it passes them all, so
      the library's tests do not reach the negative or wrapping length. */
  lemma ExpectedCasesAsWritten(five: seq<byte>)
    requires |five| == 5
    ensures SetAsWritten(None, 1, 2).Throws?
    ensures SetAsWritten(Some(five), -1, 1).Throws?
    ensures SetAsWritten(Some(five), 0, 6).Throws?
    ensures SetAsWritten(Some(five), 2, 4).Throws?
    ensures SetAsWritten(Some(five), 5, 0).Throws?
    ensures SetAsWritten(Some(five), 0, 5).Ok? && SetAsWritten(Some(five), 2, 3).Ok?
            && SetAsWritten(Some(five), 4, 1).Ok?
  {
  }

  /** `copy` as the library's tests use it on an 11-byte array: the whole
      view is shared, and the views of its first and last five bytes are
      copied out with exactly those bytes. */
  lemma CopyCases(buf: seq<byte>)
    requires |buf| == 11
    ensures Copy(ByteArrayPayload(Some(buf), 0, 11)) == Ok(ByteArrayPayload(Some(buf), 0, 11))
    ensures Copy(ByteArrayPayload(Some(buf), 0, 5)) == Ok(ByteArrayPayload(Some(buf[..5]), 0, 5))
    ensures Copy(ByteArrayPayload(Some(buf), 6, 5)) == Ok(ByteArrayPayload(Some(buf[6..]), 0, 5))
  {
    assert buf[0..5] == buf[..5];
    assert buf[6..11] == buf[6..];
  }
}
