/**
 * The array-backed ordered sequence that CompositePayload (over payloads) and
 * CompositeMessage (over ByteArrays) both keep: a nullable Java array plus
 * `index`, the next free position.  Only the array mechanics they share live
 * here (`ensureCapacity`, the `System.arraycopy` shifts of `addAtHead` and
 * `removeAtHead`, `remove`, `get`); each class checks its argument for null
 * in its own module, because the two differ there.
 */
module ArrayDeques {
  import opened JavaLang

  /** `present` is false while the Java array is null; `slots` is the array,
      a null element being `None`. */
  datatype Deque<T> = Deque(present: bool, slots: seq<Option<T>>, index: int)

  /** A deque whose array has not been allocated yet (the no-argument
      constructors). */
  function Unallocated<T>(): (d: Deque<T>)
    ensures Valid(d) && Elements(d) == [] && Capacity(d) == 0
  {
    Deque(false, [], 0)
  }

  /** `new T[n]`: every slot null. */
  function Nulls<T>(n: nat): (r: seq<Option<T>>)
    ensures |r| == n && forall i :: 0 <= i < n ==> r[i] == None
  {
    seq(n, _ => None)
  }

  function Capacity<T>(d: Deque<T>): nat { |d.slots| }

  /** The representation invariant both classes keep: positions below
      `index` hold elements, the rest of the array is null, and a null array
      holds nothing. */
  predicate Valid<T>(d: Deque<T>)
  {
    && (!d.present ==> d.slots == [] && d.index == 0)
    && 0 <= d.index <= |d.slots|
    && (forall i :: 0 <= i < d.index ==> d.slots[i].Some?)
    && (forall i :: d.index <= i < |d.slots| ==> d.slots[i].None?)
  }

  /** The stored elements, in order. */
  function Elements<T>(d: Deque<T>): (r: seq<T>)
    requires Valid(d)
    ensures |r| == d.index
    ensures forall i :: 0 <= i < d.index ==> d.slots[i] == Some(r[i])
  {
    seq(d.index, i requires 0 <= i < d.index => d.slots[i].value)
  }

  /** `Arrays.copyOf(a, n)` for `n >= |a|`: the old slots, then nulls. */
  function Grow<T>(a: seq<Option<T>>, n: nat): (r: seq<Option<T>>)
    requires n >= |a|
    ensures |r| == n && r[..|a|] == a
    ensures forall i :: |a| <= i < n ==> r[i] == None
  {
    a + Nulls(n - |a|)
  }

  /** `ensureCapacity(size)`: allocate `size + 1` slots when there is no
      array, grow to exactly `size + 1` when `size` reaches the capacity,
      and otherwise leave the array alone. */
  function EnsureCapacity<T>(d: Deque<T>, size: int): (r: Result<Deque<T>>)
    ensures r.Ok? <==> d.present || size >= -1
    ensures r.Throws? ==> r.ex == NegativeArraySize
    ensures r.Ok? ==> r.value.present && r.value.index == d.index
    ensures r.Ok? && (!d.present || size >= |d.slots|) ==> Capacity(r.value) == size + 1
    ensures r.Ok? && d.present && size < |d.slots| ==> r.value == d
    ensures r.Ok? && d.present ==> r.value.slots[..|d.slots|] == d.slots
    ensures r.Ok? ==> forall i :: |d.slots| <= i < |r.value.slots| ==> r.value.slots[i] == None
  {
    if !d.present then
      if size + 1 < 0 then Throws(NegativeArraySize) else Ok(Deque(true, Nulls(size + 1), d.index))
    else if size >= |d.slots| then Ok(d.(slots := Grow(d.slots, size + 1)))
    else Ok(d)
  }

  /** `ensureCapacity(index)` followed by `array[index++] = x`: the store the
      `add` methods make once their own null handling is done. */
  function Store<T>(d: Deque<T>, x: Option<T>): (r: Result<Deque<T>>)
    ensures d.index >= 0 ==> r.Ok?
    ensures r.Ok? ==> r.value.present && r.value.index == d.index + 1
    ensures r.Ok? ==> 0 <= d.index < |r.value.slots| && r.value.slots[d.index] == x
    ensures r.Ok? ==> forall i :: 0 <= i < |r.value.slots| && i != d.index ==>
              r.value.slots[i] == if d.present && i < |d.slots| then d.slots[i] else None
  {
    var e :- EnsureCapacity(d, d.index);
    if 0 <= d.index < |e.slots| then Ok(Deque(true, e.slots[d.index := x], d.index + 1))
    else Throws(IndexOutOfBounds)
  }

  /** `ensureCapacity(index)`, `System.arraycopy(array, 0, array, 1, index)`,
      `array[0] = x`, `index++`. */
  function StoreAtHead<T>(d: Deque<T>, x: T): (r: Result<Deque<T>>)
    ensures d.index >= 0 ==> r.Ok?
    ensures r.Ok? ==> r.value.present && r.value.index == d.index + 1
  {
    var e :- EnsureCapacity(d, d.index);
    if 0 <= d.index && d.index + 1 <= |e.slots| then
      Ok(Deque(true, [Some(x)] + e.slots[..d.index] + e.slots[d.index + 1..], d.index + 1))
    else Throws(IndexOutOfBounds)
  }

  /** `remove()`: nothing on an empty deque or a null array; otherwise the
      last element, its slot cleared. */
  function RemoveLast<T>(d: Deque<T>): (r: Result<(Option<T>, Deque<T>)>)
    ensures d.index == 0 || !d.present ==> r == Ok((None, d))
  {
    if d.index == 0 || !d.present then Ok((None, d))
    else
      var i := d.index - 1;
      if 0 <= i < |d.slots| then Ok((d.slots[i], Deque(true, d.slots[i := None], i)))
      else Throws(IndexOutOfBounds)
  }

  /** `removeAtHead()`: nothing on an empty deque or a null array; otherwise
      the first element, the others moved down one place and the vacated
      last slot cleared. */
  function RemoveFirst<T>(d: Deque<T>): (r: Result<(Option<T>, Deque<T>)>)
    ensures d.index == 0 || !d.present ==> r == Ok((None, d))
  {
    if d.index == 0 || !d.present then Ok((None, d))
    else if |d.slots| == 0 then Throws(IndexOutOfBounds)
    else if d.index - 1 < 0 || d.index > |d.slots| then Throws(IndexOutOfBounds)
    else Ok((d.slots[0], Deque(true, d.slots[1..d.index] + [None] + d.slots[d.index..], d.index - 1)))
  }

  /** `get(i)`: the raw slot, null included; a null array or an index
      outside the array throws. */
  function Get<T>(d: Deque<T>, i: int): (r: Result<Option<T>>)
    ensures r.Ok? <==> d.present && 0 <= i < |d.slots|
    ensures r.Ok? ==> r.value == d.slots[i]
    ensures r.Throws? ==> r.ex == if d.present then IndexOutOfBounds else NullPointer
  {
    if !d.present then Throws(NullPointer)
    else if 0 <= i < |d.slots| then Ok(d.slots[i])
    else Throws(IndexOutOfBounds)
  }

  // ------------------------------------------------------------ properties

  /** `ensureCapacity` grows only a full (or missing) array, by exactly one
      slot past `index`, and keeps the invariant and the elements. */
  lemma EnsureCapacityKeeps<T>(d: Deque<T>)
    requires Valid(d)
    ensures var r := EnsureCapacity(d, d.index);
            && r.Ok? && Valid(r.value) && Elements(r.value) == Elements(d)
            && Capacity(r.value) == if d.index < Capacity(d) then Capacity(d) else d.index + 1
  {
    var e := EnsureCapacity(d, d.index).value;
    assert forall i :: 0 <= i < d.index ==> e.slots[i] == d.slots[i] by {
      if d.present {
        forall i | 0 <= i < d.index ensures e.slots[i] == d.slots[i] {
          assert e.slots[..|d.slots|][i] == e.slots[i];
        }
      }
    }
  }

  /** Appending a non-null element keeps the invariant, puts the element
      last and leaves the earlier ones where they were; capacity grows by
      one only when the array was full. */
  lemma StoreAppends<T>(d: Deque<T>, x: T)
    requires Valid(d)
    ensures var r := Store(d, Some(x));
            && r.Ok? && Valid(r.value) && Elements(r.value) == Elements(d) + [x]
            && Capacity(r.value) == if d.index < Capacity(d) then Capacity(d) else d.index + 1
  {
    EnsureCapacityKeeps(d);
    var e := EnsureCapacity(d, d.index).value;
    var r := Store(d, Some(x)).value;
    assert r.slots == e.slots[d.index := Some(x)];
    assert Elements(r) == Elements(d) + [x] by {
      forall i | 0 <= i < r.index ensures Elements(r)[i] == (Elements(d) + [x])[i] {
        if i < d.index { assert r.slots[i] == e.slots[i]; }
      }
    }
  }

  /** Adding at the head keeps the invariant and puts the element first,
      shifting the earlier ones right by one in the same order. */
  lemma StoreAtHeadPrepends<T>(d: Deque<T>, x: T)
    requires Valid(d)
    ensures var r := StoreAtHead(d, x);
            && r.Ok? && Valid(r.value) && Elements(r.value) == [x] + Elements(d)
            && Capacity(r.value) == if d.index < Capacity(d) then Capacity(d) else d.index + 1
  {
    EnsureCapacityKeeps(d);
    var e := EnsureCapacity(d, d.index).value;
    var r := StoreAtHead(d, x).value;
    ShiftIn(e.slots, Some(x), d.index);
    assert Elements(r) == [x] + Elements(d) by {
      forall i | 0 <= i < r.index ensures Elements(r)[i] == ([x] + Elements(d))[i] {
        if i > 0 { assert r.slots[i] == e.slots[i - 1]; }
      }
    }
  }

  /** An element put in front of the slots before `k`, with slot `k`
      dropped: those slots move right by one and the ones after `k` stay. */
  lemma ShiftIn<A>(a: seq<A>, y: A, k: int)
    requires 0 <= k < |a|
    ensures var r := [y] + a[..k] + a[k + 1..];
            && |r| == |a| && r[0] == y
            && (forall i :: 0 < i <= k ==> r[i] == a[i - 1])
            && (forall i :: k < i < |a| ==> r[i] == a[i])
  {
    var front, back := [y] + a[..k], a[k + 1..];
    forall i | 0 < i < |a| ensures (front + back)[i] == if i <= k then a[i - 1] else a[i] {
      if i <= k {
        assert (front + back)[i] == front[i];
      } else {
        assert (front + back)[i] == back[i - k - 1];
      }
    }
  }

  /** `remove` hands back the last element and keeps the rest in order. */
  lemma RemoveLastTakesLast<T>(d: Deque<T>)
    requires Valid(d)
    ensures var r := RemoveLast(d);
            && r.Ok? && Valid(r.value.1) && Capacity(r.value.1) == Capacity(d)
            && (d.index == 0 ==> r.value.0 == None && r.value.1 == d)
            && (d.index > 0 ==> r.value.0 == Some(Elements(d)[d.index - 1])
                                && Elements(r.value.1) == Elements(d)[..d.index - 1])
  {
    if d.index > 0 {
      var r := RemoveLast(d).value.1;
      assert Elements(r) == Elements(d)[..d.index - 1] by {
        forall i | 0 <= i < r.index ensures Elements(r)[i] == Elements(d)[i] {
          assert r.slots[i] == d.slots[i];
        }
      }
    }
  }

  /** `removeAtHead` hands back the first element and keeps the rest in
      order. */
  lemma RemoveFirstTakesFirst<T>(d: Deque<T>)
    requires Valid(d)
    ensures var r := RemoveFirst(d);
            && r.Ok? && Valid(r.value.1) && Capacity(r.value.1) == Capacity(d)
            && (d.index == 0 ==> r.value.0 == None && r.value.1 == d)
            && (d.index > 0 ==> r.value.0 == Some(Elements(d)[0])
                                && Elements(r.value.1) == Elements(d)[1..])
  {
    if d.index > 0 {
      var r := RemoveFirst(d).value.1;
      assert r.slots == d.slots[1..d.index] + [None] + d.slots[d.index..];
      forall i | 0 <= i < |r.slots|
        ensures r.slots[i] == if i < d.index - 1 then d.slots[i + 1] else if i == d.index - 1 then None else d.slots[i]
      {
      }
      assert Elements(r) == Elements(d)[1..] by {
        forall i | 0 <= i < r.index ensures Elements(r)[i] == Elements(d)[1..][i] {
          assert r.slots[i] == d.slots[i + 1];
        }
      }
    }
  }

  /** Removing right after adding gives back the element added and the
      elements there were before, at either end. */
  lemma AddThenRemove<T>(d: Deque<T>, x: T)
    requires Valid(d)
    ensures var a := Store(d, Some(x));
            && a.Ok? && RemoveLast(a.value).Ok?
            && RemoveLast(a.value).value.0 == Some(x) && Elements(RemoveLast(a.value).value.1) == Elements(d)
    ensures var a := StoreAtHead(d, x);
            && a.Ok? && RemoveFirst(a.value).Ok?
            && RemoveFirst(a.value).value.0 == Some(x) && Elements(RemoveFirst(a.value).value.1) == Elements(d)
  {
    StoreAppends(d, x);
    var a := Store(d, Some(x)).value;
    RemoveLastTakesLast(a);
    assert (Elements(d) + [x])[..d.index] == Elements(d);
    StoreAtHeadPrepends(d, x);
    var b := StoreAtHead(d, x).value;
    RemoveFirstTakesFirst(b);
    assert ([x] + Elements(d))[1..] == Elements(d);
  }
}
