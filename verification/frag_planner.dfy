/**
 * The fragmentation planner `Util.computeFragOffsets(offset, length,
 * frag_size)`: cuts the byte range `[offset, offset + length)` into
 * consecutive windows of at most `frag_size` bytes.  Its source is not part of
 * this model; its behaviour is taken from the cases the library's tests pin
 * down (MessageTest.testComputeFragOffsets*).
 */
module FragPlanner {
  import opened JavaLang
  import opened Wire

  /** One window.  Following the library, `low` is the first byte and `high`
      is the NUMBER of bytes in the window, not its end. */
  datatype Range = Range(low: int, high: int)

  /** Sum of the window lengths. */
  function Covered(rs: seq<Range>): int
  {
    if |rs| == 0 then 0 else rs[0].high + Covered(rs[1..])
  }

  /** The windows lie back to back, starting at `offset`. */
  predicate Contiguous(rs: seq<Range>, offset: int)
  {
    && (|rs| > 0 ==> rs[0].low == offset)
    && (forall i :: 0 < i < |rs| ==> rs[i].low == rs[i - 1].low + rs[i - 1].high)
  }

  function ComputeFragOffsets(offset: int, length: int, fragSize: int): (r: seq<Range>)
    requires fragSize > 0
    ensures length <= 0 <==> |r| == 0
    decreases length
  {
    if length <= 0 then []
    else
      var n := Min(fragSize, length);
      [Range(offset, n)] + ComputeFragOffsets(offset + n, length - n, fragSize)
  }

  /** The plan tiles `[offset, offset + length)` exactly: every window holds
      between 1 and fragSize bytes, every window but the last is full (so there
      is no empty trailing window), the windows lie back to back from
      `offset`, and together they cover `length` bytes. */
  predicate Tiles(r: seq<Range>, offset: int, length: int, fragSize: int)
  {
    && (forall i :: 0 <= i < |r| ==> 0 < r[i].high <= fragSize)
    && (forall i :: 0 <= i < |r| - 1 ==> r[i].high == fragSize)
    && Contiguous(r, offset)
    && Covered(r) == Max(length, 0)
    && (forall i :: 0 <= i < |r| ==> offset <= r[i].low && r[i].low + r[i].high <= offset + Max(length, 0))
  }

  lemma {:induction false} PlanTiles(offset: int, length: int, fragSize: int)
    requires fragSize > 0
    ensures Tiles(ComputeFragOffsets(offset, length, fragSize), offset, length, fragSize)
  {
    PlanSizes(offset, length, fragSize);
    PlanCovers(offset, length, fragSize);
    PlanBounds(offset, length, fragSize);
  }

  /** The plan of a non-empty range: its first window, then the plan of the
      rest. */
  lemma PlanStep(offset: int, length: int, fragSize: int)
    requires fragSize > 0 && length > 0
    ensures var n := Min(fragSize, length);
            var r := ComputeFragOffsets(offset, length, fragSize);
            && r == [Range(offset, n)] + ComputeFragOffsets(offset + n, length - n, fragSize)
            && r[0] == Range(offset, n) && r[1..] == ComputeFragOffsets(offset + n, length - n, fragSize)
  {
    var n := Min(fragSize, length);
    assert ([Range(offset, n)] + ComputeFragOffsets(offset + n, length - n, fragSize))[1..]
           == ComputeFragOffsets(offset + n, length - n, fragSize);
  }

  /** Every window holds 1 to fragSize bytes, and all but the last are full. */
  lemma {:induction false} PlanSizes(offset: int, length: int, fragSize: int)
    requires fragSize > 0
    ensures var r := ComputeFragOffsets(offset, length, fragSize);
            && (forall i :: 0 <= i < |r| ==> 0 < r[i].high <= fragSize)
            && (forall i :: 0 <= i < |r| - 1 ==> r[i].high == fragSize)
    decreases length
  {
    if length > 0 {
      var n := Min(fragSize, length);
      var r := ComputeFragOffsets(offset, length, fragSize);
      var rest := ComputeFragOffsets(offset + n, length - n, fragSize);
      PlanStep(offset, length, fragSize);
      PlanSizes(offset + n, length - n, fragSize);
      forall i | 0 < i < |r|
        ensures r[i] == rest[i - 1]
      {
      }
      assert |rest| > 0 ==> n == fragSize;
    }
  }

  /** The windows lie back to back from `offset` and cover `length` bytes. */
  lemma {:induction false} PlanCovers(offset: int, length: int, fragSize: int)
    requires fragSize > 0
    ensures var r := ComputeFragOffsets(offset, length, fragSize);
            Contiguous(r, offset) && Covered(r) == Max(length, 0)
    decreases length
  {
    if length > 0 {
      var n := Min(fragSize, length);
      var r := ComputeFragOffsets(offset, length, fragSize);
      var rest := ComputeFragOffsets(offset + n, length - n, fragSize);
      PlanStep(offset, length, fragSize);
      PlanCovers(offset + n, length - n, fragSize);
      assert Covered(r) == n + Covered(rest);
      forall i | 0 < i < |r|
        ensures r[i].low == r[i - 1].low + r[i - 1].high
      {
        assert r[i] == rest[i - 1];
        if i > 1 { assert r[i - 1] == rest[i - 2]; }
      }
    }
  }

  /** Every window lies inside `[offset, offset + length)`. */
  lemma {:induction false} PlanBounds(offset: int, length: int, fragSize: int)
    requires fragSize > 0
    ensures var r := ComputeFragOffsets(offset, length, fragSize);
            forall i :: 0 <= i < |r| ==> offset <= r[i].low && r[i].low + r[i].high <= offset + Max(length, 0)
    decreases length
  {
    if length > 0 {
      var n := Min(fragSize, length);
      var r := ComputeFragOffsets(offset, length, fragSize);
      var rest := ComputeFragOffsets(offset + n, length - n, fragSize);
      PlanStep(offset, length, fragSize);
      PlanBounds(offset + n, length - n, fragSize);
      forall i | 0 < i < |r|
        ensures r[i] == rest[i - 1]
      {
      }
    }
  }

  lemma MulStep(i: int, k: int)
    ensures (i - 1) * k + k == i * k
  {
  }

  /** Window `i`, in closed form: it starts at `offset + i * fragSize` and
      holds `min(fragSize, length - i * fragSize)` bytes. */
  lemma {:induction false} ClosedForm(offset: int, length: int, fragSize: int, i: int)
    requires fragSize > 0 && 0 <= i < |ComputeFragOffsets(offset, length, fragSize)|
    ensures ComputeFragOffsets(offset, length, fragSize)[i]
            == Range(offset + i * fragSize, Min(fragSize, length - i * fragSize))
    decreases i
  {
    var n := Min(fragSize, length);
    var rest := ComputeFragOffsets(offset + n, length - n, fragSize);
    assert ComputeFragOffsets(offset, length, fragSize) == [Range(offset, n)] + rest;
    if i > 0 {
      assert n == fragSize;
      ClosedForm(offset + n, length - n, fragSize, i - 1);
      MulStep(i, fragSize);
    }
  }

  /** There are ceil(length / fragSize) windows. */
  lemma {:induction false} WindowCount(offset: int, length: int, fragSize: int)
    requires fragSize > 0 && length > 0
    ensures var c := |ComputeFragOffsets(offset, length, fragSize)|;
            (c - 1) * fragSize < length <= c * fragSize
    decreases length
  {
    var n := Min(fragSize, length);
    var rest := ComputeFragOffsets(offset + n, length - n, fragSize);
    assert |ComputeFragOffsets(offset, length, fragSize)| == 1 + |rest|;
    if length > fragSize {
      WindowCount(offset + n, length - n, fragSize);
      MulStep(1 + |rest|, fragSize);
      MulStep(|rest|, fragSize);
    }
  }

  /** The cases the library's tests check. */
  lemma ExpectedCases()
    ensures ComputeFragOffsets(0, 10, 4) == [Range(0, 4), Range(4, 4), Range(8, 2)]
    ensures ComputeFragOffsets(3, 10, 4) == [Range(3, 4), Range(7, 4), Range(11, 2)]
    ensures ComputeFragOffsets(0, 10, 10) == [Range(0, 10)]
    ensures ComputeFragOffsets(0, 10, 100) == [Range(0, 10)]
    ensures ComputeFragOffsets(0, 10, 5) == [Range(0, 5), Range(5, 5)]
    ensures ComputeFragOffsets(0, 1200, 500) == [Range(0, 500), Range(500, 500), Range(1000, 200)]
  {
    assert ComputeFragOffsets(10, 0, 4) == [];
    assert ComputeFragOffsets(8, 2, 4) == [Range(8, 2)];
    assert ComputeFragOffsets(4, 6, 4) == [Range(4, 4), Range(8, 2)];
    assert ComputeFragOffsets(13, 0, 4) == [];
    assert ComputeFragOffsets(11, 2, 4) == [Range(11, 2)];
    assert ComputeFragOffsets(7, 6, 4) == [Range(7, 4), Range(11, 2)];
    assert ComputeFragOffsets(10, 0, 10) == [];
    assert ComputeFragOffsets(10, 0, 100) == [];
    assert ComputeFragOffsets(10, 0, 5) == [];
    assert ComputeFragOffsets(5, 5, 5) == [Range(5, 5)];
    assert ComputeFragOffsets(1200, 0, 500) == [];
    assert ComputeFragOffsets(1000, 200, 500) == [Range(1000, 200)];
    assert ComputeFragOffsets(500, 700, 500) == [Range(500, 500), Range(1000, 200)];
  }

  /** Every window lies inside a buffer of `size` bytes. */
  predicate InBounds(rs: seq<Range>, size: int)
  {
    forall i :: 0 <= i < |rs| ==> 0 <= rs[i].low && 0 <= rs[i].high && rs[i].low + rs[i].high <= size
  }

  /** The windows' bytes of `s`, concatenated in order. */
  function Gather(s: seq<byte>, rs: seq<Range>): seq<byte>
    requires InBounds(rs, |s|)
  {
    if |rs| == 0 then [] else s[rs[0].low..rs[0].low + rs[0].high] + Gather(s, rs[1..])
  }

  lemma GatherCons(s: seq<byte>, r: Range, rest: seq<Range>)
    requires 0 <= r.low && 0 <= r.high && r.low + r.high <= |s| && InBounds(rest, |s|)
    ensures InBounds([r] + rest, |s|)
    ensures Gather(s, [r] + rest) == s[r.low..r.low + r.high] + Gather(s, rest)
  {
    assert ([r] + rest)[1..] == rest;
  }

  lemma GatherFirst(s: seq<byte>, rs: seq<Range>)
    requires |rs| > 0 && InBounds(rs, |s|)
    ensures InBounds(rs[1..], |s|)
    ensures Gather(s, rs) == s[rs[0].low..rs[0].low + rs[0].high] + Gather(s, rs[1..])
  {
    forall i | 0 <= i < |rs| - 1
      ensures 0 <= rs[1..][i].low && 0 <= rs[1..][i].high && rs[1..][i].low + rs[1..][i].high <= |s|
    {
      assert rs[1..][i] == rs[i + 1];
    }
  }

  /** The planned windows of a range inside `s` lie inside `s`. */
  lemma PlanInBounds(s: seq<byte>, offset: int, length: int, fragSize: int)
    requires fragSize > 0 && 0 <= offset && 0 <= length && offset + length <= |s|
    ensures InBounds(ComputeFragOffsets(offset, length, fragSize), |s|)
  {
    PlanTiles(offset, length, fragSize);
  }

  /** A window in front of windows that gather to the slice right after it
      gathers to the two slices joined. */
  lemma GatherConsSlice(s: seq<byte>, r: Range, k: int, rest: seq<Range>)
    requires 0 <= r.low && 0 <= r.high && r.low + r.high <= k <= |s|
    requires InBounds(rest, |s|) && Gather(s, rest) == s[r.low + r.high..k]
    ensures InBounds([r] + rest, |s|)
    ensures Gather(s, [r] + rest) == s[r.low..k]
  {
    GatherCons(s, r, rest);
    assert s[r.low..k] == s[r.low..r.low + r.high] + s[r.low + r.high..k];
  }

  /** Putting the planned windows of `s` back together in order yields the
      planned range of `s` itself. */
  lemma {:induction false} GatherPlanned(s: seq<byte>, offset: int, length: int, fragSize: int)
    requires fragSize > 0 && 0 <= offset && 0 <= length && offset + length <= |s|
    ensures InBounds(ComputeFragOffsets(offset, length, fragSize), |s|)
    ensures Gather(s, ComputeFragOffsets(offset, length, fragSize)) == s[offset..offset + length]
    decreases length
  {
    if length > 0 {
      var n := Min(fragSize, length);
      GatherPlanned(s, offset + n, length - n, fragSize);
      GatherPlannedStep(s, offset, length, fragSize);
    } else {
      assert s[offset..offset + length] == [];
    }
  }

  /** The step of `GatherPlanned`: the first window in front of the rest. */
  lemma GatherPlannedStep(s: seq<byte>, offset: int, length: int, fragSize: int)
    requires fragSize > 0 && 0 <= offset && 0 < length && offset + length <= |s|
    requires var n := Min(fragSize, length);
             var rest := ComputeFragOffsets(offset + n, length - n, fragSize);
             InBounds(rest, |s|) && Gather(s, rest) == s[offset + n..offset + length]
    ensures InBounds(ComputeFragOffsets(offset, length, fragSize), |s|)
    ensures Gather(s, ComputeFragOffsets(offset, length, fragSize)) == s[offset..offset + length]
  {
    var n := Min(fragSize, length);
    PlanStep(offset, length, fragSize);
    GatherConsSlice(s, Range(offset, n), offset + length, ComputeFragOffsets(offset + n, length - n, fragSize));
  }
}
