/**
 * CompositeMessage: a message whose payload is an ordered, array-backed list
 * of byte-array views (org.jgroups.util.ByteArray), added and removed at
 * either end exactly like CompositePayload's elements.  On the wire the
 * payload is the int count followed by the bytes of every view, back to back
 * and without per-view lengths.  None of the single-array accessors apply:
 * they throw UnsupportedOperationException.
 */
module CompositeMessages {
  import opened JavaLang
  import opened Wire
  import opened Envelopes
  import opened ArrayDeques

  /** org.jgroups.util.ByteArray, which is not part of this model: an array
      reference with the offset and length its accessors report. */
  datatype Chunk = Chunk(bytes: Option<seq<byte>>, offset: int, length: int)

  datatype CompositeMessage = CompositeMessage(env: Envelope, collapseArrays: bool, arrays: Deque<Chunk>)

  /** The bytes a view covers, when it lies inside its array. */
  function ChunkBytes(c: Chunk): (v: Option<seq<byte>>)
    ensures v.Some? <==> c.bytes.Some? && 0 <= c.offset && 0 <= c.length && c.offset + c.length <= |c.bytes.value|
    ensures v.Some? ==> |v.value| == c.length
  {
    if c.bytes.Some? && 0 <= c.offset && 0 <= c.length && c.offset + c.length <= |c.bytes.value|
    then Some(c.bytes.value[c.offset..c.offset + c.length])
    else None
  }

  /** `new CompositeMessage(dest)` and `new CompositeMessage(false)`: no
      array yet, nothing to collapse. */
  function New(env: Envelope): (m: CompositeMessage)
    ensures Valid(m.arrays) && Elements(m.arrays) == [] && !m.arrays.present && !m.collapseArrays
  {
    CompositeMessage(env, false, Unallocated())
  }

  function GetType(m: CompositeMessage): MessageType { CompositeMsg }

  /** `hasPayload()`: an array exists and the count is positive. */
  predicate HasPayload(m: CompositeMessage)
  {
    m.arrays.present && m.arrays.index > 0
  }

  // --------------------------------------------------- unsupported accessors

  function GetOffset(m: CompositeMessage): (r: Result<int>)
    ensures r == Throws(UnsupportedOperation)
  {
    Throws(UnsupportedOperation)
  }

  function GetArray(m: CompositeMessage): (r: Result<Option<seq<byte>>>)
    ensures r == Throws(UnsupportedOperation)
  {
    Throws(UnsupportedOperation)
  }

  /** `setArray(byte[], int, int)` and `setArray(ByteArray)`. */
  function SetArray(m: CompositeMessage, b: Option<seq<byte>>, off: int, len: int): (r: Result<CompositeMessage>)
    ensures r == Throws(UnsupportedOperation)
  {
    Throws(UnsupportedOperation)
  }

  /** `setObject(obj)` and `getObject()`; objects are opaque here. */
  function SetObject(m: CompositeMessage, obj: Option<nat>): (r: Result<CompositeMessage>)
    ensures r == Throws(UnsupportedOperation)
  {
    Throws(UnsupportedOperation)
  }

  function GetObject(m: CompositeMessage): (r: Result<Option<nat>>)
    ensures r == Throws(UnsupportedOperation)
  {
    Throws(UnsupportedOperation)
  }

  /** The constructors that take a byte array (with or without a range), a
      ByteArray or an object hand it to a setter, so they never return. */
  lemma ArrayAndObjectConstructorsThrow(env: Envelope, b: Option<seq<byte>>, off: int, len: int, obj: Option<nat>)
    ensures SetArray(New(env), b, 0, if b.Some? then |b.value| else 0) == Throws(UnsupportedOperation)
    ensures SetArray(New(env), b, off, len) == Throws(UnsupportedOperation)
    ensures SetObject(New(env), obj) == Throws(UnsupportedOperation)
  {
  }

  // -------------------------------------------------------------- length

  /** The exact sum of the lengths of a list of views. */
  function TotalLength(xs: seq<Chunk>): int
  {
    if xs == [] then 0 else xs[0].length + TotalLength(xs[1..])
  }

  /** The exact sum `getLength()`'s loop adds up from position `i`; a null
      element is a NullPointerException and a count past the array an index
      error. */
  function LengthFrom(d: Deque<Chunk>, i: nat): Result<int>
    decreases |d.slots| - i
  {
    if i >= d.index || !d.present then Ok(0)
    else if i >= |d.slots| then Throws(IndexOutOfBounds)
    else match d.slots[i]
      case None => Throws(NullPointer)
      case Some(c) =>
        var rest :- LengthFrom(d, i + 1);
        Ok(c.length + rest)
  }

  /** `getLength()`: the lengths summed in an int, which wraps around. */
  function GetLength(m: CompositeMessage): (r: Result<int>)
    ensures r.Ok? ==> IsInt(r.value)
  {
    var total :- LengthFrom(m.arrays, 0);
    Ok(Wrap(total))
  }

  lemma {:induction false} LengthFromIsTotal(d: Deque<Chunk>, i: nat)
    requires Valid(d) && i <= d.index
    ensures LengthFrom(d, i) == Ok(TotalLength(Elements(d)[i..]))
    decreases d.index - i
  {
    if i < d.index {
      LengthFromIsTotal(d, i + 1);
      assert Elements(d)[i..][1..] == Elements(d)[i + 1..];
    }
  }

  /** `getLength()` is the total length of the views, wrapped to an int. */
  lemma GetLengthIsTotal(m: CompositeMessage)
    requires Valid(m.arrays)
    ensures GetLength(m) == Ok(Wrap(TotalLength(Elements(m.arrays))))
  {
    LengthFromIsTotal(m.arrays, 0);
    assert Elements(m.arrays)[0..] == Elements(m.arrays);
  }

  lemma {:induction false} TotalLengthAppend(xs: seq<Chunk>, ys: seq<Chunk>)
    ensures TotalLength(xs + ys) == TotalLength(xs) + TotalLength(ys)
    decreases |xs|
  {
    if xs == [] {
      assert xs + ys == ys;
    } else {
      TotalLengthAppend(xs[1..], ys);
      assert (xs + ys)[1..] == xs[1..] + ys;
    }
  }

  // -------------------------------------------------- adding and removing

  /** `add(ByteArray)` with the null check made first: null is refused and
      nothing changes; otherwise the view is stored after the others. */
  function Add(m: CompositeMessage, x: Option<Chunk>): (r: Result<CompositeMessage>)
    ensures x.None? ==> r == Throws(NullPointer)
    ensures r.Ok? ==> r.value.env == m.env && r.value.collapseArrays == m.collapseArrays
    ensures x.Some? && Valid(m.arrays) ==>
              && r.Ok? && Valid(r.value.arrays)
              && Elements(r.value.arrays) == Elements(m.arrays) + [x.value]
              && Capacity(r.value.arrays) == if m.arrays.index < Capacity(m.arrays) then Capacity(m.arrays) else m.arrays.index + 1
  {
    if x.None? then Throws(NullPointer)
    else
      var d :- Store(m.arrays, x);
      if Valid(m.arrays) then StoreAppends(m.arrays, x.value); Ok(m.(arrays := d)) else Ok(m.(arrays := d))
  }

  /** A call that may throw after it has already changed the receiver. */
  datatype Outcome = Outcome(msg: CompositeMessage, thrown: Option<Exception>)

  /** `add(ByteArray)` as written: the capacity is ensured and `index++` is
      evaluated before `requireNonNull` runs on the right-hand side, so a null
      argument throws only after the count has moved past a slot that stays
      null. */
  function AddAsWritten(m: CompositeMessage, x: Option<Chunk>): (r: Outcome)
    ensures r.thrown.None? ==> x.Some?
    ensures x.Some? && Valid(m.arrays) ==> r == Outcome(Add(m, x).value, None)
    ensures x.None? && Valid(m.arrays) ==>
              && r.thrown == Some(NullPointer)
              && r.msg.arrays.present && r.msg.arrays.index == m.arrays.index + 1
              && m.arrays.index < |r.msg.arrays.slots| && r.msg.arrays.slots[m.arrays.index] == None
  {
    match EnsureCapacity(m.arrays, m.arrays.index)
    case Throws(e) => Outcome(m, Some(e))
    case Ok(d) =>
      var bumped := m.(arrays := d.(index := d.index + 1));
      if x.None? then Outcome(bumped, Some(NullPointer))
      else if !(0 <= d.index < |d.slots|) then Outcome(bumped, Some(IndexOutOfBounds))
      else Outcome(bumped.(arrays := bumped.arrays.(slots := d.slots[d.index := x])), None)
  }

  /** `addAtHead(ByteArray)`: null is refused first; otherwise the view goes
      to position 0 and the others move up one place. */
  function AddAtHead(m: CompositeMessage, x: Option<Chunk>): (r: Result<CompositeMessage>)
    ensures x.None? ==> r == Throws(NullPointer)
    ensures r.Ok? ==> r.value.env == m.env && r.value.collapseArrays == m.collapseArrays
    ensures x.Some? && Valid(m.arrays) ==>
              && r.Ok? && Valid(r.value.arrays)
              && Elements(r.value.arrays) == [x.value] + Elements(m.arrays)
  {
    if x.None? then Throws(NullPointer)
    else
      var d :- StoreAtHead(m.arrays, x.value);
      if Valid(m.arrays) then StoreAtHeadPrepends(m.arrays, x.value); Ok(m.(arrays := d)) else Ok(m.(arrays := d))
  }

  /** `remove()`: the last view, or null with nothing changed when there is
      none. */
  function Remove(m: CompositeMessage): (r: Result<(Option<Chunk>, CompositeMessage)>)
    ensures Valid(m.arrays) ==>
              && r.Ok? && Valid(r.value.1.arrays) && r.value.1.env == m.env
              && (m.arrays.index == 0 ==> r.value == (None, m))
              && (m.arrays.index > 0 ==>
                    r.value.0 == Some(Elements(m.arrays)[m.arrays.index - 1])
                    && Elements(r.value.1.arrays) == Elements(m.arrays)[..m.arrays.index - 1])
  {
    var (x, d) :- RemoveLast(m.arrays);
    if Valid(m.arrays) then RemoveLastTakesLast(m.arrays); Ok((x, m.(arrays := d))) else Ok((x, m.(arrays := d)))
  }

  /** `removeAtHead()`: the first view, the rest moved down; null with
      nothing changed when there is none. */
  function RemoveAtHead(m: CompositeMessage): (r: Result<(Option<Chunk>, CompositeMessage)>)
    ensures Valid(m.arrays) ==>
              && r.Ok? && Valid(r.value.1.arrays) && r.value.1.env == m.env
              && (m.arrays.index == 0 ==> r.value == (None, m))
              && (m.arrays.index > 0 ==>
                    r.value.0 == Some(Elements(m.arrays)[0])
                    && Elements(r.value.1.arrays) == Elements(m.arrays)[1..])
  {
    var (x, d) :- RemoveFirst(m.arrays);
    if Valid(m.arrays) then RemoveFirstTakesFirst(m.arrays); Ok((x, m.(arrays := d))) else Ok((x, m.(arrays := d)))
  }

  /** `get(i)`: the slot itself, null included. */
  function Get(m: CompositeMessage, i: int): (r: Result<Option<Chunk>>)
    ensures Valid(m.arrays) && 0 <= i < m.arrays.index ==> r == Ok(Some(Elements(m.arrays)[i]))
    ensures !m.arrays.present ==> r == Throws(NullPointer)
  {
    ArrayDeques.Get(m.arrays, i)
  }

  // ------------------------------------------------------------ the bug

  /** A null passed to `add` leaves a message that counts a null view: its
      length and its payload can no longer be computed, yet it claims to
      have a payload.  The corrected `add` refuses the same call and the
      message stays as it was. */
  lemma AddNullCorruptsCount(m: CompositeMessage)
    requires Valid(m.arrays)
    ensures var r := AddAsWritten(m, None);
            && r.thrown == Some(NullPointer)
            && !Valid(r.msg.arrays)
            && HasPayload(r.msg)
            && GetLength(r.msg) == Throws(NullPointer)
            && WritePayload(r.msg).Throws?
    ensures Add(m, None) == Throws(NullPointer)
  {
    var r := AddAsWritten(m, None);
    var d := r.msg.arrays;
    var n := m.arrays.index;
    LengthFromNull(d, 0, n);
    ChunksFromNull(d, 0, n);
  }

  /** A loop over the slots from `i` reaches the null slot `n` unless an
      earlier slot fails first. */
  lemma {:induction false} LengthFromNull(d: Deque<Chunk>, i: nat, n: nat)
    requires d.present && i <= n < d.index && n < |d.slots| && d.slots[n] == None
    requires forall j :: i <= j < n ==> d.slots[j].Some?
    ensures LengthFrom(d, i) == Throws(NullPointer)
    decreases n - i
  {
    if i < n {
      LengthFromNull(d, i + 1, n);
    }
  }

  lemma {:induction false} ChunksFromNull(d: Deque<Chunk>, i: nat, n: nat)
    requires d.present && i <= n < d.index && n < |d.slots| && d.slots[n] == None
    requires forall j :: i <= j < n ==> d.slots[j].Some?
    ensures ChunksFrom(d, i).Throws?
    decreases n - i
  {
    if i < n {
      ChunksFromNull(d, i + 1, n);
    }
  }

  // --------------------------------------------------------------- copy

  /** `copy(copy_buffer, copy_headers)`.  With `copyBuffer` and an array, a
      new array of the same capacity holds a copy (`dup`, ByteArray.copy,
      which is not part of this model) of every non-null slot and the count
      is kept; otherwise the copy has no array and a zero count.  The
      collapse flag is not carried over. */
  function Copy(m: CompositeMessage, copyBuffer: bool, copyHeaders: bool, dup: Chunk -> Chunk): (r: CompositeMessage)
    ensures r.env == CopyEnvelope(m.env, copyHeaders) && !r.collapseArrays
    ensures copyBuffer && m.arrays.present ==>
              && r.arrays.present && r.arrays.index == m.arrays.index && Capacity(r.arrays) == Capacity(m.arrays)
              && forall i :: 0 <= i < |m.arrays.slots| ==>
                   r.arrays.slots[i] == if m.arrays.slots[i].None? then None else Some(dup(m.arrays.slots[i].value))
    ensures !(copyBuffer && m.arrays.present) ==> r.arrays == Unallocated()
    ensures Valid(m.arrays) ==> Valid(r.arrays)
    ensures Valid(m.arrays) && copyBuffer ==> |Elements(r.arrays)| == |Elements(m.arrays)|
  {
    var env := CopyEnvelope(m.env, copyHeaders);
    if copyBuffer && m.arrays.present then
      var slots := seq(|m.arrays.slots|, i requires 0 <= i < |m.arrays.slots| =>
                         if m.arrays.slots[i].None? then None else Some(dup(m.arrays.slots[i].value)));
      CompositeMessage(env, false, Deque(true, slots, m.arrays.index))
    else CompositeMessage(env, false, Unallocated())
  }

  // ------------------------------------------------------------ the wire

  /** The bytes of the views from position `i` on, back to back.  A null
      element or a null array is a NullPointerException, a view outside its
      array an index error. */
  function ChunksFrom(d: Deque<Chunk>, i: nat): Result<seq<byte>>
    decreases |d.slots| - i
  {
    if i >= d.index || !d.present then Ok([])
    else if i >= |d.slots| then Throws(IndexOutOfBounds)
    else match d.slots[i]
      case None => Throws(NullPointer)
      case Some(c) =>
        if c.bytes.None? then Throws(NullPointer)
        else
          var w :- WriteRange(c.bytes.value, c.offset, c.length);
          var rest :- ChunksFrom(d, i + 1);
          Ok(w + rest)
  }

  /** `writePayload(out)`: the count as an int, then every view's bytes. */
  function WritePayload(m: CompositeMessage): (r: Result<seq<byte>>)
    ensures r.Ok? ==> |r.value| >= INT_SIZE && r.value[..INT_SIZE] == WriteInt(m.arrays.index)
  {
    var body :- ChunksFrom(m.arrays, 0);
    Ok(WriteInt(m.arrays.index) + body)
  }

  /** The bytes of a list of views, concatenated. */
  function Concat(xs: seq<Chunk>): Option<seq<byte>>
  {
    if xs == [] then Some([])
    else match ChunkBytes(xs[0])
      case None => None
      case Some(v) =>
        match Concat(xs[1..])
        case None => None
        case Some(rest) => Some(v + rest)
  }

  lemma {:induction false} ChunksFromIsConcat(d: Deque<Chunk>, i: nat)
    requires Valid(d) && i <= d.index && Concat(Elements(d)[i..]).Some?
    ensures ChunksFrom(d, i) == Ok(Concat(Elements(d)[i..]).value)
    ensures |Concat(Elements(d)[i..]).value| == TotalLength(Elements(d)[i..])
    decreases d.index - i
  {
    if i < d.index {
      assert Elements(d)[i..][1..] == Elements(d)[i + 1..];
      ChunksFromIsConcat(d, i + 1);
      var c := d.slots[i].value;
      var v := ChunkBytes(c).value;
      assert WriteRange(c.bytes.value, c.offset, c.length) == Ok(v);
    }
  }

  /** When every view lies inside its array, the payload is the count
      followed by the views' bytes in order, and it is four bytes longer
      than the total length. */
  lemma WritePayloadIsConcatenation(m: CompositeMessage)
    requires Valid(m.arrays) && Concat(Elements(m.arrays)).Some?
    ensures WritePayload(m) == Ok(WriteInt(m.arrays.index) + Concat(Elements(m.arrays)).value)
    ensures |WritePayload(m).value| == INT_SIZE + TotalLength(Elements(m.arrays))
  {
    assert Elements(m.arrays)[0..] == Elements(m.arrays);
    ChunksFromIsConcat(m.arrays, 0);
  }

  /** After `add(x)` the length grows by `x`'s length. */
  lemma AddExtendsLength(m: CompositeMessage, x: Chunk)
    requires Valid(m.arrays)
    ensures var q := Add(m, Some(x)).value;
            GetLength(q) == Ok(Wrap(TotalLength(Elements(m.arrays)) + x.length))
  {
    var q := Add(m, Some(x)).value;
    GetLengthIsTotal(q);
    TotalLengthAppend(Elements(m.arrays), [x]);
    assert [x][1..] == [];
  }

  /** After `add(x)` the payload carries the new count and ends with `x`'s
      bytes. */
  lemma AddExtendsPayload(m: CompositeMessage, x: Chunk)
    requires Valid(m.arrays) && Concat(Elements(m.arrays)).Some? && ChunkBytes(x).Some?
    ensures var q := Add(m, Some(x)).value;
            WritePayload(q) == Ok(WriteInt(m.arrays.index + 1) + Concat(Elements(m.arrays)).value + ChunkBytes(x).value)
  {
    var q := Add(m, Some(x)).value;
    var xs := Elements(m.arrays);
    ConcatSingle(x);
    ConcatAppend(xs, [x]);
    WritePayloadIsConcatenation(q);
    ConcatAssoc(WriteInt(m.arrays.index + 1), Concat(xs).value, ChunkBytes(x).value);
  }

  lemma ConcatSingle(x: Chunk)
    requires ChunkBytes(x).Some?
    ensures Concat([x]) == Some(ChunkBytes(x).value)
  {
    assert [x][1..] == [];
    assert ChunkBytes(x).value + [] == ChunkBytes(x).value;
  }

  lemma {:induction false} ConcatAppend(xs: seq<Chunk>, ys: seq<Chunk>)
    requires Concat(xs).Some? && Concat(ys).Some?
    ensures Concat(xs + ys) == Some(Concat(xs).value + Concat(ys).value)
    decreases |xs|
  {
    if xs == [] {
      assert xs + ys == ys;
      assert [] + Concat(ys).value == Concat(ys).value;
    } else {
      assert (xs + ys)[1..] == xs[1..] + ys;
      ConcatAppend(xs[1..], ys);
      var v := ChunkBytes(xs[0]).value;
      assert v + (Concat(xs[1..]).value + Concat(ys).value) == (v + Concat(xs[1..]).value) + Concat(ys).value;
    }
  }

  /** Two views of 10 and 1000 bytes make a message of length 1010 that
      has a payload. */
  lemma TwoViews(env: Envelope, a: seq<byte>, b: seq<byte>)
    requires |a| == 10 && |b| == 1000
    ensures var m := Add(Add(New(env), Some(Chunk(Some(a), 0, 10))).value, Some(Chunk(Some(b), 0, 1000))).value;
            && GetLength(m) == Ok(1010)
            && HasPayload(m)
  {
    var ca, cb := Chunk(Some(a), 0, 10), Chunk(Some(b), 0, 1000);
    var m1 := Add(New(env), Some(ca)).value;
    var m := Add(m1, Some(cb)).value;
    assert Elements(m.arrays) == [ca, cb];
    GetLengthIsTotal(m);
    assert [ca, cb][1..] == [cb] && [cb][1..] == [];
    assert TotalLength([cb]) == 1000;
    assert TotalLength([ca, cb]) == 1010;
  }
}
