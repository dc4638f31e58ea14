/**
 * PartialOutputStream: a decorator over a real sink that forwards only the
 * bytes of a virtual write stream whose positions fall in the window
 * `[offset, end)`, where `end` is `offset + length` computed in Java's 32-bit
 * int arithmetic.  The cursor `pos` counts the virtual bytes seen so far; it
 * starts at 0 and stops advancing once the window is complete.
 *
 * The stream is a value: every write returns the new cursor together with
 * everything forwarded to the real sink so far.
 */
module PartialOutput {
  import opened JavaLang
  import opened Wire

  /** One call a serialiser makes on its output stream:
      `write(int)` or `write(byte[], off, len)`. */
  datatype Write = OneByte(b: byte) | Bytes(buf: seq<byte>, off: int, len: int)

  predicate ValidWrite(w: Write)
  {
    w.OneByte? || (0 <= w.off && 0 <= w.len && w.off + w.len <= |w.buf|)
  }

  predicate ValidWrites(ws: seq<Write>)
  {
    forall i :: 0 <= i < |ws| ==> ValidWrite(ws[i])
  }

  /** The bytes one write call hands to the stream. */
  function Emitted(w: Write): seq<byte>
    requires ValidWrite(w)
  {
    match w
    case OneByte(b) => [b]
    case Bytes(buf, off, len) => buf[off..off + len]
  }

  /** The full serialised form: the concatenation of everything written. */
  function Serialized(ws: seq<Write>): seq<byte>
    requires ValidWrites(ws)
  {
    if |ws| == 0 then [] else Emitted(ws[0]) + Serialized(ws[1..])
  }

  /** `end` is `end_range = offset + length`, which both `write` methods
      compute in int arithmetic.  Since `offset` and `length` are final, the
      value is the same on every call, and the model computes it once. */
  datatype Stream = Stream(offset: int, length: int, end: int, pos: int, forwarded: seq<byte>)

  /** The int sum `offset + length`: for int operands it wraps to a negative
      value when the true sum exceeds `Integer.MAX_VALUE` (and to a positive
      one below `Integer.MIN_VALUE`), as `AddInt` does. */
  function IntSum(offset: int, length: int): (r: int)
    ensures IsInt(offset) && IsInt(length) ==> r == AddInt(offset, length)
  {
    var e := offset + length;
    if e > INT_MAX then e - 0x1_0000_0000 else if e < INT_MIN then e + 0x1_0000_0000 else e
  }

  /** `new PartialOutputStream(out, offset, length)`: nothing forwarded yet. */
  function Create(offset: int, length: int): (s: Stream)
    ensures s.offset == offset && s.length == length && s.end == IntSum(offset, length)
    ensures s.pos == 0 && s.forwarded == []
  {
    Stream(offset, length, IntSum(offset, length), 0, [])
  }

  function EndRange(s: Stream): int
  {
    s.end
  }

  /** `isInRange()`: the cursor lies inside the window. */
  predicate IsInRange(s: Stream)
  {
    s.pos >= s.offset && s.pos < EndRange(s)
  }

  function Clamp(x: int, lo: int, hi: int): (r: int)
    requires lo <= hi
    ensures lo <= r <= hi
  {
    if x < lo then lo else if x > hi then hi else x
  }

  /** The bytes of `data`, written at virtual positions `s.pos, s.pos+1, ...`,
      whose positions fall inside the window. */
  function InWindow(s: Stream, data: seq<byte>): seq<byte>
  {
    var lo := Clamp(s.offset - s.pos, 0, |data|);
    var hi := Clamp(EndRange(s) - s.pos, lo, |data|);
    data[lo..hi]
  }

  /** `write(int b)`. */
  function WriteByte(s: Stream, b: byte): (r: Stream)
    ensures r.offset == s.offset && r.length == s.length && r.end == s.end
    // forwards the byte exactly when the cursor is inside the window
    ensures r.forwarded == s.forwarded + (if IsInRange(s) then [b] else [])
    // before the window: nothing forwarded, cursor advances by one
    ensures s.pos < s.offset && s.pos < EndRange(s) ==> r.forwarded == s.forwarded && r.pos == s.pos + 1
    // past the window: a no-op
    ensures s.pos >= EndRange(s) ==> r == s
    ensures s.offset <= EndRange(s) ==> r.forwarded == s.forwarded + InWindow(s, [b])
    ensures s.offset <= EndRange(s) ==> r.pos == (if s.pos >= EndRange(s) then s.pos else Min(s.pos + 1, EndRange(s)))
  {
    var endRange := EndRange(s);
    if s.pos >= endRange then s
    else if s.pos < s.offset then s.(pos := s.pos + 1)
    else if s.pos + 1 <= endRange then s.(forwarded := s.forwarded + [b], pos := s.pos + 1)
    else s
  }

  /** `write(byte[] b, int off, int len)`: a write straddling the start of the
      window skips its first `offset - pos` bytes and continues with the rest;
      one straddling the end is clipped. */
  function WriteBytes(s: Stream, b: seq<byte>, off: int, len: int): (r: Stream)
    requires 0 <= off && 0 <= len && off + len <= |b|
    ensures r.offset == s.offset && r.length == s.length && r.end == s.end
    // past the window: a no-op
    ensures s.pos >= EndRange(s) ==> r == s
    // wholly before the window: nothing forwarded, cursor advances by len
    ensures s.pos < s.offset && s.pos < EndRange(s) && s.offset - s.pos >= len ==> r == s.(pos := s.pos + len)
    // inside the window: forwards the first min(len, end - pos) bytes
    ensures s.offset <= s.pos < EndRange(s) ==>
              var n := Min(len, EndRange(s) - s.pos);
              r.forwarded == s.forwarded + b[off..off + n] && r.pos == s.pos + n
    // straddling the start: skips offset - pos bytes, then forwards from the suffix
    ensures s.offset <= EndRange(s) && s.pos < s.offset && s.offset - s.pos < len ==>
              var skip := s.offset - s.pos;
              var n := Min(len - skip, EndRange(s) - s.offset);
              r.forwarded == s.forwarded + b[off + skip..off + skip + n] && r.pos == s.offset + n
    decreases len
  {
    var endRange := EndRange(s);
    if s.pos >= endRange then s
    else if s.pos < s.offset then
      var bytesToWrite := s.offset - s.pos;
      if bytesToWrite >= len then s.(pos := s.pos + len)
      else WriteBytes(s.(pos := s.pos + bytesToWrite), b, off + bytesToWrite, len - bytesToWrite)
    else
      var n := Min(len, endRange - s.pos);
      s.(forwarded := s.forwarded + b[off..off + n], pos := s.pos + n)
  }

  /** Whatever the cursor, a range write forwards exactly the bytes whose
      virtual positions lie in the window, and the cursor stops at the end of
      the window. */
  lemma {:induction false} WriteBytesInWindow(s: Stream, b: seq<byte>, off: int, len: int)
    requires 0 <= off && 0 <= len && off + len <= |b| && s.offset <= EndRange(s)
    ensures WriteBytes(s, b, off, len).forwarded == s.forwarded + InWindow(s, b[off..off + len])
    ensures WriteBytes(s, b, off, len).pos
            == (if s.pos >= EndRange(s) then s.pos else Min(s.pos + len, EndRange(s)))
    decreases len
  {
    var skip := s.offset - s.pos;
    if s.pos < s.offset && s.pos < EndRange(s) && skip < len {
      WriteBytesInWindow(s.(pos := s.offset), b, off + skip, len - skip);
      StraddleInWindow(s, b, off, len);
    } else {
      DirectInWindow(s, b, off, len);
    }
  }

  /** A write that does not straddle the start of the window. */
  lemma DirectInWindow(s: Stream, b: seq<byte>, off: int, len: int)
    requires 0 <= off && 0 <= len && off + len <= |b| && s.offset <= EndRange(s)
    requires !(s.pos < s.offset && s.pos < EndRange(s) && s.offset - s.pos < len)
    ensures WriteBytes(s, b, off, len).forwarded == s.forwarded + InWindow(s, b[off..off + len])
    ensures WriteBytes(s, b, off, len).pos
            == (if s.pos >= EndRange(s) then s.pos else Min(s.pos + len, EndRange(s)))
  {
    if s.pos < s.offset || s.pos >= EndRange(s) {
      OutsideInWindow(s, b, off, len);
    } else {
      InsideInWindow(s, b, off, len);
    }
  }

  /** A write made past the window, or wholly before it, forwards nothing. */
  lemma OutsideInWindow(s: Stream, b: seq<byte>, off: int, len: int)
    requires 0 <= off && 0 <= len && off + len <= |b| && s.offset <= EndRange(s)
    requires s.pos >= EndRange(s) || (s.pos < s.offset && s.offset - s.pos >= len)
    ensures WriteBytes(s, b, off, len).forwarded == s.forwarded + InWindow(s, b[off..off + len])
    ensures WriteBytes(s, b, off, len).pos
            == (if s.pos >= EndRange(s) then s.pos else Min(s.pos + len, EndRange(s)))
  {
    var v := b[off..off + len];
    assert InWindow(s, v) == v[|v|..|v|] == [];
  }

  /** A write made from inside the window forwards its bytes up to the end
      of the window. */
  lemma InsideInWindow(s: Stream, b: seq<byte>, off: int, len: int)
    requires 0 <= off && 0 <= len && off + len <= |b| && s.offset <= EndRange(s)
    requires s.offset <= s.pos < EndRange(s)
    ensures WriteBytes(s, b, off, len).forwarded == s.forwarded + InWindow(s, b[off..off + len])
    ensures WriteBytes(s, b, off, len).pos == Min(s.pos + len, EndRange(s))
  {
    var v := b[off..off + len];
    var n := Min(len, EndRange(s) - s.pos);
    assert InWindow(s, v) == v[0..n] == b[off..off + n];
  }

  /** A write that straddles the start of the window: after skipping up to
      the window, the rest of the write is a write from inside it. */
  lemma StraddleInWindow(s: Stream, b: seq<byte>, off: int, len: int)
    requires 0 <= off && 0 <= len && off + len <= |b| && s.offset <= EndRange(s)
    requires s.pos < s.offset && s.pos < EndRange(s) && s.offset - s.pos < len
    requires var skip := s.offset - s.pos;
             var t := s.(pos := s.offset);
             && WriteBytes(t, b, off + skip, len - skip).forwarded == t.forwarded + InWindow(t, b[off + skip..off + len])
             && WriteBytes(t, b, off + skip, len - skip).pos == Min(t.pos + (len - skip), EndRange(t))
    ensures WriteBytes(s, b, off, len).forwarded == s.forwarded + InWindow(s, b[off..off + len])
    ensures WriteBytes(s, b, off, len).pos
            == (if s.pos >= EndRange(s) then s.pos else Min(s.pos + len, EndRange(s)))
  {
    var skip := s.offset - s.pos;
    StraddleStep(s, b, off, len);
    SkipToWindow(s, b[off..off + len], skip);
    assert b[off..off + len][skip..] == b[off + skip..off + len];
  }

  /** A write straddling the start of the window is the rest of the write
      made from the start of the window. */
  lemma StraddleStep(s: Stream, b: seq<byte>, off: int, len: int)
    requires 0 <= off && 0 <= len && off + len <= |b|
    requires s.pos < s.offset && s.pos < EndRange(s) && s.offset - s.pos < len
    ensures WriteBytes(s, b, off, len)
            == WriteBytes(s.(pos := s.offset), b, off + (s.offset - s.pos), len - (s.offset - s.pos))
  {
  }

  /** Skipping the bytes before the window does not change the part inside
      it. */
  lemma SkipToWindow(s: Stream, v: seq<byte>, skip: int)
    requires s.offset <= EndRange(s) && s.pos < s.offset && skip == s.offset - s.pos < |v|
    ensures InWindow(s, v) == InWindow(s.(pos := s.offset), v[skip..])
  {
    var w := v[skip..];
    var hi := Clamp(EndRange(s) - s.pos, skip, |v|);
    assert InWindow(s, v) == v[skip..hi];
    assert InWindow(s.(pos := s.offset), w) == w[0..hi - skip];
    assert v[skip..hi] == w[0..hi - skip];
  }

  function Apply(s: Stream, w: Write): (r: Stream)
    requires ValidWrite(w)
    ensures r.offset == s.offset && r.length == s.length && r.end == s.end
  {
    match w
    case OneByte(b) => WriteByte(s, b)
    case Bytes(buf, off, len) => WriteBytes(s, buf, off, len)
  }

  /** Feeds a whole sequence of write calls through the filter. */
  function Run(s: Stream, ws: seq<Write>): (r: Stream)
    requires ValidWrites(ws)
    ensures r.offset == s.offset && r.length == s.length && r.end == s.end
    decreases |ws|
  {
    if |ws| == 0 then s else Run(Apply(s, ws[0]), ws[1..])
  }

  /** The filter's state after it has been handed the bytes `written`:
      the cursor sits at min(|written|, end) and the forwarded bytes are the
      part of `written` inside the window. */
  predicate Tracks(s: Stream, written: seq<byte>)
  {
    && 0 <= s.offset <= EndRange(s)
    && s.pos == Min(|written|, EndRange(s))
    && s.forwarded == written[Min(|written|, s.offset)..Min(|written|, EndRange(s))]
  }

  lemma SliceOfConcat(p: seq<byte>, x: seq<byte>, i: int, j: int)
    requires 0 <= i <= j <= |p| + |x|
    ensures (p + x)[i..j] == p[Min(i, |p|)..Min(j, |p|)] + x[Max(i - |p|, 0)..Max(j - |p|, 0)]
  {
    var lhs := (p + x)[i..j];
    var rhs := p[Min(i, |p|)..Min(j, |p|)] + x[Max(i - |p|, 0)..Max(j - |p|, 0)];
    assert |lhs| == |rhs|;
    forall k | 0 <= k < |lhs|
      ensures lhs[k] == rhs[k]
    {
      if i + k < |p| {
        assert lhs[k] == p[i + k];
      } else {
        assert lhs[k] == x[i + k - |p|];
      }
    }
  }

  /** A state change that forwards the in-window part of `x` and moves the
      cursor by |x| (stopping at the end of the window) keeps the invariant. */
  lemma TracksAfter(s: Stream, r: Stream, written: seq<byte>, x: seq<byte>)
    requires Tracks(s, written)
    requires r.offset == s.offset && r.length == s.length && r.end == s.end
    requires r.forwarded == s.forwarded + InWindow(s, x)
    requires r.pos == (if s.pos >= EndRange(s) then s.pos else Min(s.pos + |x|, EndRange(s)))
    ensures Tracks(r, written + x)
  {
    if |written| >= EndRange(s) {
      TracksAfterPast(s, r, written, x);
    } else {
      TracksAfterInside(s, r, written, x);
    }
  }

  /** Once the window is complete nothing more is forwarded. */
  lemma TracksAfterPast(s: Stream, r: Stream, written: seq<byte>, x: seq<byte>)
    requires Tracks(s, written) && |written| >= EndRange(s)
    requires r.offset == s.offset && r.length == s.length && r.end == s.end
    requires r.forwarded == s.forwarded + InWindow(s, x)
    requires r.pos == (if s.pos >= EndRange(s) then s.pos else Min(s.pos + |x|, EndRange(s)))
    ensures Tracks(r, written + x)
  {
    assert s.pos == EndRange(s);
    assert InWindow(s, x) == x[0..0];
    assert (written + x)[s.offset..EndRange(s)] == written[s.offset..EndRange(s)];
  }

  /** Before the window is complete the forwarded bytes grow by the part of
      `x` inside the window. */
  lemma TracksAfterInside(s: Stream, r: Stream, written: seq<byte>, x: seq<byte>)
    requires Tracks(s, written) && |written| < EndRange(s)
    requires r.offset == s.offset && r.length == s.length && r.end == s.end
    requires r.forwarded == s.forwarded + InWindow(s, x)
    requires r.pos == (if s.pos >= EndRange(s) then s.pos else Min(s.pos + |x|, EndRange(s)))
    ensures Tracks(r, written + x)
  {
    var n := |written|;
    assert s.pos == n && s.forwarded == written[Min(n, s.offset)..n];
    if n + |x| <= s.offset {
      assert InWindow(s, x) == x[|x|..|x|];
      assert (written + x)[n + |x|..n + |x|] == [];
    } else if n + |x| <= EndRange(s) {
      assert InWindow(s, x) == x[Max(s.offset - n, 0)..|x|];
      SliceOfConcat(written, x, s.offset, n + |x|);
    } else {
      assert InWindow(s, x) == x[Max(s.offset - n, 0)..EndRange(s) - n];
      SliceOfConcat(written, x, s.offset, EndRange(s));
    }
  }

  /** One write call keeps the tracking invariant. */
  lemma StepTracks(s: Stream, written: seq<byte>, w: Write)
    requires ValidWrite(w) && Tracks(s, written)
    ensures Tracks(Apply(s, w), written + Emitted(w))
  {
    match w
    case OneByte(b) =>
      assert Apply(s, w) == WriteByte(s, b) && Emitted(w) == [b];
      ByteTracks(s, written, b);
    case Bytes(buf, off, len) =>
      assert Apply(s, w) == WriteBytes(s, buf, off, len) && Emitted(w) == buf[off..off + len];
      BytesTrack(s, written, buf, off, len);
  }

  lemma ByteTracks(s: Stream, written: seq<byte>, b: byte)
    requires Tracks(s, written)
    ensures Tracks(WriteByte(s, b), written + [b])
  {
    TracksAfter(s, WriteByte(s, b), written, [b]);
  }

  lemma BytesTrack(s: Stream, written: seq<byte>, buf: seq<byte>, off: int, len: int)
    requires 0 <= off && 0 <= len && off + len <= |buf| && Tracks(s, written)
    ensures Tracks(WriteBytes(s, buf, off, len), written + buf[off..off + len])
  {
    WriteBytesInWindow(s, buf, off, len);
    TracksAfter(s, WriteBytes(s, buf, off, len), written, buf[off..off + len]);
  }

  lemma {:induction false} RunTracks(s: Stream, written: seq<byte>, ws: seq<Write>)
    requires ValidWrites(ws) && Tracks(s, written)
    ensures Tracks(Run(s, ws), written + Serialized(ws))
    decreases |ws|
  {
    if |ws| > 0 {
      StepTracks(s, written, ws[0]);
      ValidWritesTail(ws);
      RunTracks(Apply(s, ws[0]), written + Emitted(ws[0]), ws[1..]);
      RunStep(s, written, ws);
    } else {
      assert written + Serialized(ws) == written;
    }
  }

  lemma ValidWritesTail(ws: seq<Write>)
    requires |ws| > 0 && ValidWrites(ws)
    ensures ValidWrite(ws[0]) && ValidWrites(ws[1..])
  {
    forall i | 0 <= i < |ws| - 1 ensures ValidWrite(ws[1..][i]) {
      assert ws[1..][i] == ws[i + 1];
    }
  }

  /** A single write call serialises to the bytes it emits. */
  lemma SerializedOne(w: Write)
    requires ValidWrite(w)
    ensures ValidWrites([w]) && Serialized([w]) == Emitted(w)
  {
    assert [w][1..] == [];
  }

  /** The first write call, then the rest. */
  lemma RunStep(s: Stream, written: seq<byte>, ws: seq<Write>)
    requires |ws| > 0 && ValidWrites(ws) && ValidWrites(ws[1..])
    ensures Run(s, ws) == Run(Apply(s, ws[0]), ws[1..])
    ensures written + Emitted(ws[0]) + Serialized(ws[1..]) == written + Serialized(ws)
  {
    assert Serialized(ws) == Emitted(ws[0]) + Serialized(ws[1..]);
  }

  /** A stream whose cursor has reached the end of the window ignores every
      further write. */
  lemma {:induction false} RunPastEnd(s: Stream, ws: seq<Write>)
    requires ValidWrites(ws) && s.pos >= EndRange(s)
    ensures Run(s, ws) == s
    decreases |ws|
  {
    if |ws| > 0 {
      ValidWritesTail(ws);
      RunPastEnd(Apply(s, ws[0]), ws[1..]);
    }
  }

  /** After any sequence of writes whose concatenation is `S`, the filter has
      forwarded exactly `S[offset .. min(offset + length, |S|))` (empty when
      `S` ends before the window starts) and its cursor is min(|S|, end) --
      provided `offset + length` fits an int.  When it does not, Java's
      `end_range` wraps negative, every write is ignored, and nothing at all
      is forwarded. */
  lemma {:induction false} ForwardsExactlyTheWindow(offset: int, length: int, ws: seq<Write>)
    requires 0 <= offset && 0 <= length && IsInt(offset) && IsInt(length) && ValidWrites(ws)
    ensures IsInt(offset + length) ==>
              && Run(Create(offset, length), ws).pos == Min(|Serialized(ws)|, offset + length)
              && Run(Create(offset, length), ws).forwarded
                 == Serialized(ws)[Min(|Serialized(ws)|, offset)..Min(|Serialized(ws)|, offset + length)]
              && |Run(Create(offset, length), ws).forwarded| == Min(length, Max(0, |Serialized(ws)| - offset))
    ensures !IsInt(offset + length) ==> Run(Create(offset, length), ws) == Create(offset, length)
  {
    var s := Create(offset, length);
    if IsInt(offset + length) {
      var none: seq<byte> := [];
      assert EndRange(s) == offset + length;
      assert Tracks(s, none);
      RunTracks(s, none, ws);
      assert none + Serialized(ws) == Serialized(ws);
    } else {
      RunPastEnd(s, ws);
    }
  }
}
