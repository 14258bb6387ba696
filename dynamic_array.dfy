/**
 * The growable array `wtr::DynamicArray<T>`: a buffer of `capacity` slots of
 * which the first `size` hold elements. Iterators are an array plus an index;
 * the iterator-taking operations take that index (and, where the source
 * compares the array an iterator belongs to, the array too).
 */
module DynamicArrays {

  /** `k` copies of `v`: what `Resize` appends when it grows. */
  function Repeat<T>(v: T, k: nat): (r: seq<T>)
    ensures |r| == k
    ensures forall i :: 0 <= i < k ==> r[i] == v
  {
    if k == 0 then [] else Repeat(v, k - 1) + [v]
  }

  /** The contents after resizing `s` to `n` elements, padding with `fill`. */
  function Resized<T>(s: seq<T>, n: nat, fill: T): (r: seq<T>)
    ensures |r| == n
  {
    if n <= |s| then s[..n] else s + Repeat(fill, n - |s|)
  }

  /** `v` inserted into `s` before position `p`. */
  function Inserted<T>(s: seq<T>, p: nat, v: seq<T>): seq<T>
    requires p <= |s|
  {
    s[..p] + v + s[p..]
  }

  /** `s` without the elements at positions `first` up to, not including, `last`. */
  function Erased<T>(s: seq<T>, first: nat, last: nat): seq<T>
    requires first <= last <= |s|
  {
    s[..first] + s[last..]
  }

  /**
   * What the range `Insert(pos, first, last)` leaves behind as written: its
   * shift loop stops one slot early, so the slot just after the inserted
   * values keeps whatever `Resize` left there and the old element at `p`
   * is lost whenever `p < |s|`.
   */
  function InsertedAsWritten<T>(s: seq<T>, p: nat, v: seq<T>, fill: T): (r: seq<T>)
    requires p <= |s|
    ensures |r| == |s| + |v|
  {
    if |v| == 0 || p == |s| then Inserted(s, p, v)
    else s[..p] + v + [Resized(s, |s| + |v|, fill)[p + |v|]] + s[p + 1..]
  }

  /** Element-by-element equality under the element type's `operator==`. */
  predicate SameElements<T>(a: seq<T>, b: seq<T>, eq: (T, T) -> bool)
  {
    |a| == |b| && forall i :: 0 <= i < |a| ==> eq(a[i], b[i])
  }

  /** An iterator: the array it walks and its index into that array. */
  datatype Iterator<T(!new)> = Iterator(owner: DynamicArray<T>, index: nat)

  /**
   * One partition range of `Sort`'s work queue: the index of the pivot
   * element and the inclusive bounds of the range.
   */
  datatype Pivot = Pivot(pivot: nat, lower: nat, upper: nat)

  /** The first index `Sort(first, last)` touches. */
  function SortFront(first: nat, last: nat): nat
  {
    if first < last then first else last
  }

  /** The last index `Sort(first, last)` touches: `last - 1`, or `first` when the pair is reversed. */
  function SortBack(first: nat, last: nat): nat
  {
    if first < last then last - 1 else first
  }

  /** `t` is `s` with the elements of positions `lo` up to `hi` rearranged and nothing else changed. */
  ghost predicate PermutedWithin<T>(t: seq<T>, s: seq<T>, lo: nat, hi: nat)
  {
    |t| == |s| && lo <= hi <= |s|
    && multiset(t[lo..hi]) == multiset(s[lo..hi])
    && (forall i :: 0 <= i < lo ==> t[i] == s[i])
    && (forall i :: hi <= i < |s| ==> t[i] == s[i])
  }

  /**
   * How the partition loop moves its two cursors after comparing the
   * elements under them with the pivot element.
   */
  function NextCursors(lo: nat, up: nat, lower: nat, upper: nat, lowerBigger: bool, upperSmaller: bool): (nat, nat)
  {
    if lo == up then
      (if lo < upper then lo + 1 else lo, up)
    else
      (if (!lowerBigger || upperSmaller) && lo < upper then lo + 1 else lo,
       if (!upperSmaller || lowerBigger) && up > lower then up - 1 else up)
  }

  /**
   * One step of the partition cursors keeps them inside `[lower, upper]`,
   * at most one apart once crossed, and `lo` at or below the pivot while
   * `up` has not moved; and they close in. The element at the pivot is
   * never below itself, so `lowerBigger` holds when `lo` is at the pivot.
   */
  lemma CursorsStep(lo: nat, up: nat, lower: nat, upper: nat, pivot: nat, lowerBigger: bool, upperSmaller: bool)
    requires lower < upper && pivot == (lower + upper) / 2
    requires lower <= lo <= up <= upper
    requires up == upper ==> lo <= pivot
    requires lo == pivot ==> lowerBigger
    ensures var next := NextCursors(lo, up, lower, upper, lowerBigger, upperSmaller);
      lower <= next.0 <= upper && lower <= next.1 <= upper && next.0 <= next.1 + 1
      && (next.1 == upper ==> next.0 <= pivot)
      && next.1 + 1 - next.0 < up + 1 - lo
  {
  }

  /**
   * One turn of `Sort`'s partition loop as written, on the values `a`: the
   * elements under the cursors are compared with the element at the pivot
   * INDEX (whatever earlier swaps have put there), swapped when the lower one
   * is not below it and the upper one not above it, and the cursors move.
   */
  function PassStep<T>(a: seq<T>, p: Pivot, lo: nat, up: nat, less: (T, T) -> bool): (r: (seq<T>, nat, nat))
    requires lo < |a| && up < |a| && p.pivot < |a|
    ensures |r.0| == |a|
    ensures multiset(r.0) == multiset(a)
  {
    var lowerBigger := !less(a[lo], a[p.pivot]);
    var upperSmaller := !less(a[p.pivot], a[up]);
    var b := if lowerBigger && upperSmaller then a[lo := a[up]][up := a[lo]] else a;
    var next := NextCursors(lo, up, p.lower, p.upper, lowerBigger, upperSmaller);
    (b, next.0, next.1)
  }

  /** A turn of the partition loop rearranges only the range holding both cursors. */
  lemma PassStepPermutes<T>(a: seq<T>, p: Pivot, lo: nat, up: nat, less: (T, T) -> bool)
    requires p.lower <= lo <= p.upper < |a| && p.lower <= up <= p.upper && p.pivot < |a|
    ensures PermutedWithin(PassStep(a, p, lo, up, less).0, a, p.lower, p.upper + 1)
  {
    if !less(a[lo], a[p.pivot]) && !less(a[p.pivot], a[up]) {
      SwapPermutes(a, lo, up, p.lower, p.upper + 1);
    }
  }

  /**
   * One turn of the partition loop as written keeps the cursors in the
   * range, at most one apart once crossed, with `lo` at or below the pivot
   * while `up` has not moved; it closes them in and rearranges only the
   * range.
   */
  lemma PassStepKeeps<T>(a: seq<T>, a0: seq<T>, p: Pivot, lo: nat, up: nat, less: (T, T) -> bool)
    requires p.lower < p.upper < |a| && p.pivot == (p.lower + p.upper) / 2
    requires p.lower <= lo <= up <= p.upper && (up == p.upper ==> lo <= p.pivot)
    requires !less(a[p.pivot], a[p.pivot])
    requires PermutedWithin(a, a0, p.lower, p.upper + 1)
    ensures var r := PassStep(a, p, lo, up, less);
      p.lower <= r.1 <= p.upper && p.lower <= r.2 <= p.upper && r.1 <= r.2 + 1
      && (r.2 == p.upper ==> r.1 <= p.pivot)
      && r.2 + 1 - r.1 < up + 1 - lo
      && PermutedWithin(r.0, a0, p.lower, p.upper + 1)
  {
    CursorsStep(lo, up, p.lower, p.upper, p.pivot, !less(a[lo], a[p.pivot]), !less(a[p.pivot], a[up]));
    PassStepPermutes(a, p, lo, up, less);
    PermutedWithinTrans(PassStep(a, p, lo, up, less).0, a, a0, p.lower, p.upper + 1);
  }

  class DynamicArray<T(!new)> {
    /** The buffer; a null buffer is a buffer of length 0. */
    var data: array<T>
    var size: nat
    var capacity: nat
    /** The value `T{}` that `Resize` constructs in new slots. */
    const defaultValue: T

    /**
     * The size never exceeds the recorded capacity, and the recorded capacity
     * never exceeds the buffer (copy assignment may record less than the
     * buffer holds).
     */
    ghost predicate Valid()
      reads this
    {
      size <= capacity <= data.Length
    }

    /** The elements, in order. */
    function Contents(): seq<T>
      reads this, data
      requires Valid()
    {
      data[..size]
    }

    constructor (defaultValue: T)
      ensures Valid() && Contents() == [] && capacity == 0 && fresh(data)
      ensures this.defaultValue == defaultValue
    {
      this.defaultValue := defaultValue;
      data := new T[0](_ => defaultValue);
      size := 0;
      capacity := 0;
    }

    /** Construction from an initializer list: reserve exactly, then append each value. */
    constructor FromList(init: seq<T>, defaultValue: T)
      ensures Valid() && Contents() == init && capacity == |init| && fresh(data)
      ensures this.defaultValue == defaultValue
    {
      this.defaultValue := defaultValue;
      data := new T[0](_ => defaultValue);
      size := 0;
      capacity := 0;
      new;
      Assign(init);
    }

    /** Copy construction: a new buffer holding exactly the other array's elements. */
    constructor Copy(other: DynamicArray<T>)
      requires other.Valid()
      ensures Valid() && Contents() == other.Contents() && capacity == other.size && fresh(data)
      ensures defaultValue == other.defaultValue
    {
      var d := other.defaultValue;
      var buffer := new T[other.size](_ => d);
      var index := 0;
      while index < other.size
        invariant index <= other.size
        invariant buffer[..index] == other.data[..index]
      {
        buffer[index] := other.data[index];
        index := index + 1;
      }
      defaultValue := d;
      data := buffer;
      size := other.size;
      capacity := other.size;
    }

    /** Move construction: takes over the other array's buffer and leaves it empty. */
    constructor Move(other: DynamicArray<T>)
      requires other.Valid()
      modifies other
      ensures Valid() && Contents() == old(other.Contents()) && capacity == old(other.capacity)
      ensures data == old(other.data)
      ensures other.Valid() && other.Contents() == [] && other.capacity == 0
      ensures defaultValue == other.defaultValue
    {
      var d := other.defaultValue;
      defaultValue := d;
      data := other.data;
      size := other.size;
      capacity := other.capacity;
      new;
      other.data := new T[0](_ => d);
      other.size := 0;
      other.capacity := 0;
    }

    /**
     * Copy assignment. Self-assignment changes nothing; otherwise the buffer is
     * replaced only when too small, and the recorded capacity becomes the
     * other array's size either way.
     */
    method CopyAssign(other: DynamicArray<T>)
      requires Valid() && other.Valid()
      requires other != this ==> other.data != data
      modifies this, data
      ensures Valid() && Contents() == old(other.Contents())
      ensures capacity == if other == this then old(capacity) else old(other.size)
    {
      if other != this {
        Clear();
        if capacity < other.size {
          var d := defaultValue;
          data := new T[other.size](_ => d);
        }
        size := other.size;
        capacity := other.size;
        var index := 0;
        while index < other.size
          invariant index <= size == other.size <= data.Length
          invariant capacity == other.size
          invariant data != other.data
          invariant data == old(data) || fresh(data)
          invariant data[..index] == other.data[..index]
          invariant other.data[..other.size] == old(other.Contents())
        {
          data[index] := other.data[index];
          index := index + 1;
        }
      }
    }

    /**
     * Move assignment. Unless it is self-assignment, takes over the other
     * array's buffer, size and capacity and leaves the other array empty.
     */
    method MoveAssign(other: DynamicArray<T>)
      requires Valid() && other.Valid()
      modifies this, other
      ensures Valid() && Contents() == old(other.Contents()) && capacity == old(other.capacity)
      ensures data == old(other.data) && size == old(other.size)
      ensures other != this ==> other.Valid() && other.Contents() == [] && other.capacity == 0
    {
      if other != this {
        Clear();
        data := other.data;
        size := other.size;
        capacity := other.capacity;
        var d := other.defaultValue;
        other.data := new T[0](_ => d);
        other.size := 0;
        other.capacity := 0;
      }
    }

    /** `operator==`: same size and pairwise equal elements under `eq`. */
    method Equals(other: DynamicArray<T>, eq: (T, T) -> bool) returns (r: bool)
      requires Valid() && other.Valid()
      ensures r <==> SameElements(Contents(), other.Contents(), eq)
    {
      if size != other.size {
        return false;
      }
      var index := 0;
      while index < size
        invariant index <= size
        invariant forall i :: 0 <= i < index ==> eq(data[i], other.data[i])
      {
        if !eq(data[index], other.data[index]) {
          return false;
        }
        index := index + 1;
      }
      return true;
    }

    /** `At`, `operator[]`: the element at `index`, which must be in range. */
    function At(index: nat): (r: T)
      reads this, data
      requires Valid() && index < size
      ensures r == Contents()[index]
    {
      data[index]
    }

    /** Writing through `operator[]`. */
    method Set(index: nat, value: T)
      requires Valid() && index < size
      modifies data
      ensures Valid() && Contents() == old(Contents())[index := value]
    {
      data[index] := value;
    }

    /** The first element of a non-empty array. */
    function Front(): (r: T)
      reads this, data
      requires Valid() && 0 < size
      ensures r == Contents()[0]
    {
      data[0]
    }

    /** The last element of a non-empty array. */
    function Back(): (r: T)
      reads this, data
      requires Valid() && 0 < size
      ensures r == Contents()[|Contents()| - 1]
    {
      data[size - 1]
    }

    /** Swaps the elements at two positions, as the partition loop of `Sort` does. */
    method Swap(i: nat, j: nat)
      requires Valid() && i < size && j < size
      modifies data
      ensures data[..] == old(data[..])[i := old(data[j])][j := old(data[i])]
    {
      var value := data[i];
      data[i] := data[j];
      data[j] := value;
    }

    /**
     * Grows the buffer to exactly `newCapacity` slots when that is more than
     * the recorded capacity, moving the elements over; otherwise does nothing.
     */
    method Reserve(newCapacity: nat)
      requires Valid()
      modifies this
      ensures Valid() && Contents() == old(Contents())
      ensures capacity == if newCapacity > old(capacity) then newCapacity else old(capacity)
      ensures if newCapacity > old(capacity) then fresh(data) else data == old(data)
    {
      if newCapacity > capacity {
        var d := defaultValue;
        var newData := new T[newCapacity](_ => d);
        var index := 0;
        while index < size
          invariant unchanged(this)
          invariant index <= size
          invariant newData[..index] == data[..index]
        {
          newData[index] := data[index];
          index := index + 1;
        }
        data := newData;
        capacity := newCapacity;
      }
    }

    /**
     * Sets the size to `newSize`: growing reserves exactly `newSize` when the
     * capacity is too small and fills the new slots with `T{}`; shrinking
     * drops the tail.
     */
    method Resize(newSize: nat)
      requires Valid()
      modifies this, data
      ensures Valid() && size == newSize && Contents() == Resized(old(Contents()), newSize, defaultValue)
      ensures capacity == if newSize > old(capacity) then newSize else old(capacity)
      ensures data == old(data) || fresh(data)
    {
      if newSize > size {
        if newSize > capacity {
          Reserve(newSize);
        }
        var buffer := data;
        var index := size;
        while index < newSize
          invariant data == buffer && size == old(size)
          invariant capacity == if newSize > old(capacity) then newSize else old(capacity)
          invariant size <= index <= newSize <= capacity <= buffer.Length
          invariant buffer[..index] == old(Contents()) + Repeat(defaultValue, index - size)
        {
          buffer[index] := defaultValue;
          index := index + 1;
        }
      }
      size := newSize;
    }

    /** Appends one element, first doubling the capacity (or making it 4) when full. */
    method EmplaceBack(value: T)
      requires Valid()
      modifies this, data
      ensures Valid() && Contents() == old(Contents()) + [value]
      ensures capacity == if old(size) < old(capacity) then old(capacity)
                          else if old(capacity) == 0 then 4 else 2 * old(capacity)
      ensures data == old(data) || fresh(data)
    {
      if size == capacity {
        Reserve(if capacity == 0 then 4 else capacity * 2);
      }
      data[size] := value;
      size := size + 1;
    }

    /** Appends a copy of `value`. */
    method PushBack(value: T)
      requires Valid()
      modifies this, data
      ensures Valid() && Contents() == old(Contents()) + [value]
      ensures capacity >= old(capacity) && (data == old(data) || fresh(data))
    {
      EmplaceBack(value);
    }

    /** Removes the last element; does nothing on an empty array. */
    method PopBack()
      requires Valid()
      modifies this
      ensures Valid() && capacity == old(capacity) && data == old(data)
      ensures Contents() == if old(size) == 0 then old(Contents()) else old(Contents())[..old(size) - 1]
    {
      if size != 0 {
        size := size - 1;
      }
    }

    /** Drops every element and keeps the buffer and the capacity. */
    method Clear()
      requires Valid()
      modifies this
      ensures Valid() && Contents() == [] && capacity == old(capacity) && data == old(data)
    {
      size := 0;
    }

    /** Replaces the contents by `init`, reserving `|init|` slots first. */
    method Assign(init: seq<T>)
      requires Valid()
      modifies this, data
      ensures Valid() && Contents() == init
      ensures capacity == if |init| > old(capacity) then |init| else old(capacity)
      ensures data == old(data) || fresh(data)
    {
      Clear();
      Reserve(|init|);
      var index := 0;
      while index < |init|
        invariant index <= |init| <= capacity
        invariant Valid() && Contents() == init[..index]
        invariant capacity == if |init| > old(capacity) then |init| else old(capacity)
        invariant data == old(data) || fresh(data)
      {
        EmplaceBack(init[index]);
        index := index + 1;
      }
    }

    /**
     * The shift loop shared by the three `Insert` overloads: walking down from
     * the last slot while `index > bound`, each slot takes the element `diff`
     * slots before it.
     */
    method ShiftUp(bound: int, diff: nat)
      requires Valid() && diff <= size && diff <= bound + 1 <= size + 1
      modifies data
      ensures Valid()
      ensures Contents() == Shifted(old(Contents()), ShiftStart(bound, size), diff)
    {
      ghost var s := Contents();
      ghost var k := ShiftStart(bound, size);
      var index: int := size - 1;
      while index > bound
        invariant k - 1 <= index <= size - 1
        invariant ShiftedAbove(data[..size], s, index, diff)
      {
        ShiftSlot(index, diff, s);
        index := index - 1;
      }
      ShiftedFrom(s, k, diff, data[..size]);
    }

    /** One step of the shift loop: slot `index` takes the element `diff` slots before it. */
    method ShiftSlot(index: nat, diff: nat, ghost s: seq<T>)
      requires Valid() && diff <= index < size && |s| == size
      requires ShiftedAbove(data[..size], s, index, diff)
      modifies data
      ensures ShiftedAbove(data[..size], s, index - 1, diff)
    {
      data[index] := data[index - diff];
    }

    /** The shift loop of an `Insert`, then the write of the inserted values at `pos`. */
    method ShiftCopy(bound: int, pos: nat, values: seq<T>)
      requires Valid() && |values| <= bound + 1 <= size + 1 && pos + |values| <= size
      modifies data
      ensures Valid()
      ensures Contents() == Overwritten(Shifted(old(Contents()), ShiftStart(bound, |old(Contents())|), |values|), pos, values)
    {
      ShiftUp(bound, |values|);
      CopyInto(pos, values);
    }

    /** Writes `values` into consecutive slots from `pos` on. */
    method CopyInto(pos: nat, values: seq<T>)
      requires Valid() && pos + |values| <= size
      modifies data
      ensures Valid()
      ensures Contents() == Overwritten(old(Contents()), pos, values)
    {
      var k := 0;
      while k < |values|
        invariant k <= |values|
        invariant forall j :: 0 <= j < size && !(pos <= j < pos + k) ==> data[j] == old(data[j])
        invariant forall j :: pos <= j < pos + k ==> data[j] == values[j - pos]
      {
        data[pos + k] := values[k];
        k := k + 1;
      }
      assert Contents() == Overwritten(old(Contents()), pos, values) by {
        assert forall j :: 0 <= j < size ==> Contents()[j] == Overwritten(old(Contents()), pos, values)[j];
      }
    }

    /** `Insert(pos, value)`: inserts `value` before position `pos`, growing the size by one. */
    method Insert(pos: nat, value: T) returns (r: nat)
      requires Valid() && pos <= size
      modifies this, data
      ensures Valid() && r == pos
      ensures Contents() == Inserted(old(Contents()), pos, [value])
      ensures capacity == if old(size) + 1 > old(capacity) then old(size) + 1 else old(capacity)
    {
      ghost var s := Contents();
      Resize(size + 1);
      ghost var t := Contents();
      ShiftCopy(pos, pos, [value]);
      InsertListSteps(s, pos, [value], defaultValue, pos, t, Contents());
      return pos;
    }

    /**
     * The range `Insert(pos, first, last)` as written: the values of another
     * array's range `[first, last)` land at `pos`, but the shift loop's bound
     * `pos + diff` leaves the slot just after them unshifted.
     */
    method InsertRange(pos: nat, values: seq<T>) returns (r: nat)
      requires Valid() && pos <= size
      modifies this, data
      ensures Valid() && r == pos
      ensures Contents() == InsertedAsWritten(old(Contents()), pos, values, defaultValue)
      ensures capacity == if old(size) + |values| > old(capacity) then old(size) + |values| else old(capacity)
    {
      if |values| == 0 {
        return pos;
      }
      ghost var s := Contents();
      var diff := |values|;
      Resize(size + diff);
      ghost var t := Contents();
      ShiftCopy(pos + diff, pos, values);
      InsertRangeSteps(s, pos, values, defaultValue, t, Contents());
      return pos;
    }

    /**
     * `Insert(pos, initList)`: grows by `|values|`, shifts the tail with the
     * bound `pos + offset - 1`, then writes the values at `pos`.
     */
    method InsertList(pos: nat, values: seq<T>) returns (r: nat)
      requires Valid() && pos <= size
      modifies this, data
      ensures Valid() && r == pos
      ensures Contents() == Inserted(old(Contents()), pos, values)
      ensures capacity == if old(size) + |values| > old(capacity) then old(size) + |values| else old(capacity)
    {
      ghost var s := Contents();
      var offset := |values|;
      Resize(size + offset);
      ghost var t := Contents();
      ShiftCopy(pos + offset - 1, pos, values);
      InsertListSteps(s, pos, values, defaultValue, pos + offset - 1, t, Contents());
      return pos;
    }

    /** The range `Insert` with the shift loop's bound corrected to `pos + diff - 1`. */
    method InsertRangeCorrected(pos: nat, values: seq<T>) returns (r: nat)
      requires Valid() && pos <= size
      modifies this, data
      ensures Valid() && r == pos
      ensures Contents() == Inserted(old(Contents()), pos, values)
      ensures capacity == if old(size) + |values| > old(capacity) then old(size) + |values| else old(capacity)
    {
      if |values| == 0 {
        return pos;
      }
      r := InsertList(pos, values);
    }

    /**
     * `Erase(first, last)`: when both iterators belong to this array and
     * `first` is neither the end nor equal to `last`, closes the gap and
     * returns `first`'s index; otherwise changes nothing and returns the end.
     */
    method Erase(first: Iterator<T>, last: Iterator<T>) returns (r: nat)
      requires Valid()
      requires first.owner == this && last.owner == this ==> first.index <= last.index <= size
      modifies this, data
      ensures Valid() && capacity == old(capacity) && data == old(data)
      ensures if first.owner == this && last.owner == this && first.index < last.index
              then Contents() == Erased(old(Contents()), first.index, last.index) && r == first.index
              else Contents() == old(Contents()) && r == old(size)
    {
      if (first.owner == this && first.index == size) || first == last {
        return size;
      }
      if first.owner != this || last.owner != this {
        return size;
      }
      ghost var s := Contents();
      var length := last.index - first.index;
      var index := first.index;
      while index < size - length
        invariant Valid() && data == old(data) && capacity == old(capacity)
        invariant first.index <= index <= size - length
        invariant size == |s|
        invariant forall j :: 0 <= j < index ==> data[j] == Erased(s, first.index, last.index)[j]
        invariant forall j :: index <= j < size ==> data[j] == s[j]
      {
        data[index] := data[index + length];
        index := index + 1;
      }
      size := size - length;
      assert Contents() == Erased(s, first.index, last.index) by {
        assert forall j :: 0 <= j < size ==> Contents()[j] == Erased(s, first.index, last.index)[j];
      }
      return first.index;
    }

    /** `Erase(pos)`: erases the single element under `pos`, which must not be an end iterator. */
    method EraseAt(pos: Iterator<T>) returns (r: nat)
      requires Valid() && pos.index < pos.owner.size
      modifies this, data
      ensures Valid() && capacity == old(capacity)
      ensures if pos.owner == this
              then Contents() == Erased(old(Contents()), pos.index, pos.index + 1) && r == pos.index
              else Contents() == old(Contents()) && r == old(size)
    {
      r := Erase(pos, Iterator(pos.owner, pos.index + 1));
    }

    /** The index of the first element equal to `value` under `eq`, or the size when there is none. */
    method Find(value: T, eq: (T, T) -> bool) returns (r: nat)
      requires Valid()
      ensures r <= size
      ensures r < size ==> eq(Contents()[r], value)
      ensures forall j :: 0 <= j < r ==> !eq(Contents()[j], value)
    {
      var index := 0;
      while index < size
        invariant index <= size
        invariant forall j :: 0 <= j < index ==> !eq(data[j], value)
      {
        if eq(data[index], value) {
          return index;
        }
        index := index + 1;
      }
      return size;
    }

    method SwapWithin(i: nat, j: nat, lo: nat, hi: nat, ghost s: seq<T>)
      requires Valid() && lo <= i < hi <= size && lo <= j < hi
      requires PermutedWithin(data[..], s, lo, hi)
      modifies data
      ensures PermutedWithin(data[..], s, lo, hi)
    {
      ghost var before := data[..];
      Swap(i, j);
      SwapPermutes(before, i, j, lo, hi);
      PermutedWithinTrans(data[..], before, s, lo, hi);
    }

    /**
     * One pass of `Sort`'s partition loop over the range `[p.lower, p.upper]`:
     * two cursors walk towards each other, swapping a pair when the lower one
     * is not below the pivot element and the upper one not above it. Ends with
     * the cursors crossed, `lo == up + 1`, splitting the range in two
     * non-empty parts.
     */
    method Partition(p: Pivot, less: (T, T) -> bool) returns (lo: nat, up: nat)
      requires Valid() && p.lower < p.upper < size && p.pivot == (p.lower + p.upper) / 2
      requires forall x :: !less(x, x)
      modifies data
      ensures p.lower <= up < p.upper && lo == up + 1
      ensures PermutedWithin(data[..], old(data[..]), p.lower, p.upper + 1)
    {
      var lower, upper := p.lower, p.upper;
      lo, up := lower, upper;
      while lo <= up
        invariant lower <= lo <= upper && lower <= up <= upper && lo <= up + 1
        invariant up == upper ==> lo <= p.pivot
        invariant PermutedWithin(data[..], old(data[..]), lower, upper + 1)
        decreases up + 1 - lo
      {
        PassStepKeeps(data[..], old(data[..]), p, lo, up, less);
        lo, up := PartitionTurn(p, less, lo, up);
      }
    }

    /** One turn of the partition loop, in place: `PassStep` on the buffer. */
    method PartitionTurn(p: Pivot, less: (T, T) -> bool, lo: nat, up: nat) returns (lo': nat, up': nat)
      requires Valid() && lo < size && up < size && p.pivot < size
      modifies data
      ensures (data[..], lo', up') == PassStep(old(data[..]), p, lo, up, less)
    {
      var lowerBigger := !less(data[lo], data[p.pivot]);
      var upperSmaller := !less(data[p.pivot], data[up]);
      if lowerBigger && upperSmaller {
        Swap(lo, up);
      }
      var next := NextCursors(lo, up, p.lower, p.upper, lowerBigger, upperSmaller);
      lo', up' := next.0, next.1;
    }

    /** A partition pass over `p` inside a sort that has so far rearranged `[lo', hi')` of `s`. */
    method PartitionWithin(p: Pivot, less: (T, T) -> bool, lo': nat, hi': nat, ghost s: seq<T>) returns (lo: nat, up: nat)
      requires Valid() && p.lower < p.upper < size && p.pivot == (p.lower + p.upper) / 2
      requires forall x :: !less(x, x)
      requires lo' <= p.lower && p.upper < hi'
      requires PermutedWithin(data[..], s, lo', hi')
      modifies data
      ensures p.lower <= up < p.upper && lo == up + 1
      ensures PermutedWithin(data[..], s, lo', hi')
    {
      ghost var before := data[..];
      lo, up := Partition(p, less);
      PermutedWithinCompose(data[..], before, s, p.lower, p.upper + 1, lo', hi');
    }

    /**
     * `Sort(first, last, less)`: a queue of partition ranges over the
     * elements from `SortFront` to `SortBack`. `less` must be a strict order
     * (irreflexive); with a non-strict one the partition loop can stop moving.
     */
    method Sort(first: nat, last: nat, less: (T, T) -> bool)
      requires Valid() && first <= size && last <= size
      requires last < first ==> first < size
      requires forall x :: !less(x, x)
      modifies data
      ensures Valid()
      ensures first == last || size == 0 ==> data[..] == old(data[..])
      ensures first != last && size != 0 ==>
        PermutedWithin(data[..], old(data[..]), SortFront(first, last), SortBack(first, last) + 1)
    {
      if first == last || size == 0 {
        return;
      }
      var front := SortFront(first, last);
      var back := SortBack(first, last);
      if front == back {
        return;
      }
      var queue := [Part(front, back)];
      while queue != []
        invariant QueueWithin(queue, front, back)
        invariant back < size
        invariant PermutedWithin(data[..], old(data[..]), front, back + 1)
        decreases Weight(queue)
      {
        queue := SortTurn(queue, less, front, back, old(data[..]));
      }
    }

    /** One turn of `Sort`'s loop: partition the range at the head of the queue and queue its two sides. */
    method SortTurn(queue: seq<Pivot>, less: (T, T) -> bool, front: nat, back: nat, ghost s: seq<T>) returns (next: seq<Pivot>)
      requires Valid() && queue != [] && QueueWithin(queue, front, back) && back < size
      requires forall x :: !less(x, x)
      requires PermutedWithin(data[..], s, front, back + 1)
      modifies data
      ensures QueueWithin(next, front, back) && Weight(next) < Weight(queue)
      ensures PermutedWithin(data[..], s, front, back + 1)
    {
      var p := queue[0];
      var lo, up := PartitionWithin(p, less, front, back + 1, s);
      RequeueShrinks(queue, lo, up, front, back);
      next := Requeue(queue[1..], p, lo, up);
    }

    /** One turn of the corrected partition loop, in place: `PassStepCorrected` on the buffer. */
    method PartitionTurnCorrected(p: Pivot, v: T, less: (T, T) -> bool, lo: nat, up: nat) returns (lo': nat, up': nat)
      requires Valid() && lo < size && up < size
      modifies data
      ensures (data[..], lo', up') == PassStepCorrected(old(data[..]), p, v, lo, up, less)
    {
      var lowerBigger := !less(data[lo], v);
      var upperSmaller := !less(v, data[up]);
      if lowerBigger && upperSmaller {
        Swap(lo, up);
      }
      var next := NextCursorsCorrected(lo, up, p.lower, p.upper, lowerBigger, upperSmaller);
      lo', up' := next.0, next.1;
    }

    /**
     * The partition pass as evidently intended: compares against a copy of
     * the pivot element and places the element where the cursors meet. Ends
     * with the range split into two non-empty parts, the lower one not above
     * the pivot element and the upper one not below it.
     */
    method PartitionCorrected(p: Pivot, less: (T, T) -> bool) returns (lo: nat, up: nat)
      requires Valid() && p.lower < p.upper < size && p.pivot == (p.lower + p.upper) / 2
      requires StrictWeakOrder(less)
      modifies data
      ensures p.lower <= up < p.upper && lo == up + 1
      ensures PermutedWithin(data[..], old(data[..]), p.lower, p.upper + 1)
      ensures forall i :: p.lower <= i < lo ==> !less(old(data[p.pivot]), data[i])
      ensures forall i :: lo <= i <= p.upper ==> !less(data[i], old(data[p.pivot]))
    {
      var v := data[p.pivot];
      lo, up := p.lower, p.upper;
      while lo <= up
        invariant Partitioning(data[..], old(data[..]), p, v, lo, up, less)
        decreases up + 1 - lo
      {
        CorrectedStepKeeps(data[..], old(data[..]), p, v, lo, up, less);
        lo, up := PartitionTurnCorrected(p, v, less, lo, up);
      }
    }

    /**
     * `Sort` with the corrected partition pass, for a strict weak order
     * `less`: the elements from `SortFront` to `SortBack` end rearranged and
     * in order.
     */
    method SortCorrected(first: nat, last: nat, less: (T, T) -> bool)
      requires Valid() && first <= size && last <= size
      requires last < first ==> first < size
      requires StrictWeakOrder(less)
      modifies data
      ensures Valid()
      ensures first == last || size == 0 ==> data[..] == old(data[..])
      ensures first != last && size != 0 ==>
        PermutedWithin(data[..], old(data[..]), SortFront(first, last), SortBack(first, last) + 1)
        && SortedWithin(data[..], SortFront(first, last), SortBack(first, last) + 1, less)
    {
      if first == last || size == 0 {
        return;
      }
      var front := SortFront(first, last);
      var back := SortBack(first, last);
      if front == back {
        return;
      }
      var queue := [Part(front, back)];
      FirstQueueOrdered(data[..], front, back, less);
      while queue != []
        invariant QueueWithin(queue, front, back) && Disjoint(queue)
        invariant back < size
        invariant PermutedWithin(data[..], old(data[..]), front, back + 1)
        invariant SortedOutside(data[..], queue, front, back, less)
        decreases Weight(queue)
      {
        queue := SortTurnCorrected(queue, less, front, back, old(data[..]));
      }
    }

    /** One turn of `SortCorrected`'s loop: the corrected partition of the head range, then the requeue. */
    method SortTurnCorrected(queue: seq<Pivot>, less: (T, T) -> bool, front: nat, back: nat, ghost s: seq<T>) returns (next: seq<Pivot>)
      requires Valid() && queue != [] && QueueWithin(queue, front, back) && Disjoint(queue) && back < size
      requires StrictWeakOrder(less)
      requires PermutedWithin(data[..], s, front, back + 1)
      requires SortedOutside(data[..], queue, front, back, less)
      modifies data
      ensures QueueWithin(next, front, back) && Disjoint(next) && Weight(next) < Weight(queue)
      ensures PermutedWithin(data[..], s, front, back + 1)
      ensures SortedOutside(data[..], next, front, back, less)
    {
      var p := queue[0];
      ghost var before := data[..];
      ghost var v := data[p.pivot];
      var lo, up := PartitionCorrected(p, less);
      ghost var after := data[..];
      assert forall i :: p.lower <= i < lo ==> !less(v, after[i]);
      assert forall i :: lo <= i <= p.upper ==> !less(after[i], v);
      SortTurnSteps(after, before, s, queue, v, lo, up, front, back, less);
      next := Requeue(queue[1..], p, lo, up);
    }
  }

  /** The smaller of two integers. */
  function Min(a: int, b: int): int
  {
    if a < b then a else b
  }

  /** The first slot the shift loop `for (index = size - 1; index > bound; index--)` writes, or `size` when it writes none. */
  function ShiftStart(bound: int, size: nat): (k: nat)
    requires -1 <= bound
    ensures k <= size && (bound < size ==> k == bound + 1)
  {
    if bound < size then bound + 1 else size
  }

  /** `t` after every element from position `k` on moved `d` slots towards the end. */
  function Shifted<T>(t: seq<T>, k: nat, d: nat): seq<T>
    requires d <= k <= |t|
  {
    t[..k] + t[k - d .. |t| - d]
  }

  lemma ShiftedAt<T>(t: seq<T>, k: nat, d: nat)
    requires d <= k <= |t|
    ensures |Shifted(t, k, d)| == |t|
    ensures forall j :: 0 <= j < |t| ==> Shifted(t, k, d)[j] == if j < k then t[j] else t[j - d]
  {
  }

  /** A sequence that agrees with `t` below `k` and with `t` read `d` slots back from `k` on is `Shifted(t, k, d)`. */
  lemma ShiftedFrom<T>(t: seq<T>, k: nat, d: nat, c: seq<T>)
    requires d <= k <= |t| && |c| == |t|
    requires forall j :: 0 <= j < k ==> c[j] == t[j]
    requires forall j :: k <= j < |t| ==> c[j] == t[j - d]
    ensures c == Shifted(t, k, d)
  {
    ShiftedAt(t, k, d);
  }

  /**
   * The shift loop's progress on `c`: the slots up to `index` still hold
   * `s`, and each slot above it holds the element `d` slots before it in `s`.
   */
  ghost predicate ShiftedAbove<T>(c: seq<T>, s: seq<T>, index: int, d: nat)
  {
    |c| == |s|
    && (forall j :: 0 <= j <= index && j < |c| ==> c[j] == s[j])
    && (forall j :: index < j < |c| && d <= j ==> c[j] == s[j - d])
  }

  /** `u` with `v` written over the slots from `p` on. */
  function Overwritten<T>(u: seq<T>, p: nat, v: seq<T>): seq<T>
    requires p + |v| <= |u|
  {
    u[..p] + v + u[p + |v|..]
  }

  /**
   * The three steps of `Insert(pos, initList)` (resize to `t`, shift with
   * `bound` `p + |v| - 1`, copy, giving `c`) insert `v` at `p`.
   */
  lemma InsertListSteps<T>(s: seq<T>, p: nat, v: seq<T>, fill: T, bound: int, t: seq<T>, c: seq<T>)
    requires p <= |s| && bound == p + |v| - 1
    requires t == Resized(s, |s| + |v|, fill)
    requires c == Overwritten(Shifted(t, ShiftStart(bound, |t|), |v|), p, v)
    ensures c == Inserted(s, p, v)
  {
    var u := Shifted(t, p + |v|, |v|);
    assert t[..|s|] == s;
    assert forall j :: 0 <= j < |u| ==> Overwritten(u, p, v)[j] == Inserted(s, p, v)[j];
  }

  /**
   * The three steps of the range `Insert` as written (resize to `t`, shift
   * with bound `p + |v|`, copy, giving `c`) give `InsertedAsWritten`.
   */
  lemma InsertRangeSteps<T>(s: seq<T>, p: nat, v: seq<T>, fill: T, t: seq<T>, c: seq<T>)
    requires p <= |s| && |v| > 0
    requires t == Resized(s, |s| + |v|, fill)
    requires c == Overwritten(Shifted(t, ShiftStart(p + |v|, |t|), |v|), p, v)
    ensures c == InsertedAsWritten(s, p, v, fill)
  {
    var k := ShiftStart(p + |v|, |t|);
    var u := Shifted(t, k, |v|);
    assert t[..|s|] == s;
    assert forall j :: 0 <= j < |u| ==> Overwritten(u, p, v)[j] == InsertedAsWritten(s, p, v, fill)[j];
  }

  /** Swapping two positions inside `[lo, hi)` rearranges only `[lo, hi)`. */
  lemma SwapPermutes<T>(s: seq<T>, i: nat, j: nat, lo: nat, hi: nat)
    requires lo <= i < hi <= |s| && lo <= j < hi
    ensures PermutedWithin(s[i := s[j]][j := s[i]], s, lo, hi)
  {
    var mid := s[i := s[j]];
    var t := mid[j := s[i]];
    assert mid[lo..hi] == s[lo..hi][i - lo := s[j]];
    assert t[lo..hi] == mid[lo..hi][j - lo := s[i]];
  }

  /** Two rearrangements within the same range compose. */
  lemma PermutedWithinTrans<T>(u: seq<T>, t: seq<T>, s: seq<T>, lo: nat, hi: nat)
    requires PermutedWithin(u, t, lo, hi) && PermutedWithin(t, s, lo, hi)
    ensures PermutedWithin(u, s, lo, hi)
  {
  }

  /** A rearrangement within `[lo, hi)` is one within any range around it. */
  lemma PermutedWithinWiden<T>(t: seq<T>, s: seq<T>, lo: nat, hi: nat, lo': nat, hi': nat)
    requires PermutedWithin(t, s, lo, hi) && lo' <= lo && hi <= hi' <= |s|
    ensures PermutedWithin(t, s, lo', hi')
  {
    SliceSplit(t, lo', lo, hi, hi');
    SliceSplit(s, lo', lo, hi, hi');
    assert t[lo'..lo] == s[lo'..lo];
    assert t[hi..hi'] == s[hi..hi'];
  }

  /** A slice is its three consecutive sub-slices joined. */
  lemma SliceSplit<T>(t: seq<T>, a: nat, b: nat, c: nat, d: nat)
    requires a <= b <= c <= d <= |t|
    ensures t[a..d] == t[a..b] + t[b..c] + t[c..d]
  {
    assert t[a..d] == t[a..c] + t[c..d];
    assert t[a..c] == t[a..b] + t[b..c];
  }

  /** A rearrangement within `[lo, hi)` after one within a range around it is one within the larger range. */
  lemma PermutedWithinCompose<T>(u: seq<T>, t: seq<T>, s: seq<T>, lo: nat, hi: nat, lo': nat, hi': nat)
    requires PermutedWithin(u, t, lo, hi) && PermutedWithin(t, s, lo', hi')
    requires lo' <= lo && hi <= hi'
    ensures PermutedWithin(u, s, lo', hi')
  {
    PermutedWithinWiden(u, t, lo, hi, lo', hi');
    PermutedWithinTrans(u, t, s, lo', hi');
  }

  /** How far a partition range reaches past its first element: its size less one. */
  function Width(p: Pivot): nat
  {
    if p.lower <= p.upper then p.upper - p.lower else 0
  }

  /** The queue's weight: the sum of its ranges' widths, which every partition pass lowers. */
  function Weight(q: seq<Pivot>): nat
  {
    if q == [] then 0 else Width(q[0]) + Weight(q[1..])
  }

  /** The weight of a queue with one more range appended. */
  lemma {:induction false} WeightAppend(q: seq<Pivot>, p: Pivot)
    ensures Weight(q + [p]) == Weight(q) + Width(p)
  {
    if q != [] {
      assert (q + [p])[1..] == q[1..] + [p];
      WeightAppend(q[1..], p);
    }
  }

  /** Every queued range lies within `[front, back]`, holds two or more elements and has its middle as pivot. */
  predicate QueueWithin(q: seq<Pivot>, front: nat, back: nat)
  {
    forall k :: 0 <= k < |q| ==>
      front <= q[k].lower < q[k].upper <= back && q[k].pivot == (q[k].lower + q[k].upper) / 2
  }

  /** The partition range from `lower` to `upper`, split at its midpoint. */
  function Part(lower: nat, upper: nat): (r: Pivot)
    ensures r.lower == lower && r.upper == upper && r.pivot == (lower + upper) / 2
  {
    Pivot((lower + upper) / 2, lower, upper)
  }

  /** `q` with `p` appended when `cond` holds. */
  function PushIf(q: seq<Pivot>, cond: bool, p: Pivot): seq<Pivot>
  {
    if cond then q + [p] else q
  }

  /**
   * The queue after a partition pass over `p` that left the cursors at `lo`
   * and `up`: the rest of the queue, then the left part `[p.lower, up]` when
   * `p.lower < up`, then the right part `[lo, p.upper]` when `lo < p.upper`.
   */
  function Requeue(rest: seq<Pivot>, p: Pivot, lo: nat, up: nat): seq<Pivot>
  {
    PushIf(PushIf(rest, p.lower < up, Part(p.lower, up)), p.upper > lo, Part(lo, p.upper))
  }

  /** A conditional push keeps the queue well-formed and adds the pushed range's width. */
  lemma PushIfFacts(q: seq<Pivot>, cond: bool, p: Pivot, front: nat, back: nat)
    requires QueueWithin(q, front, back)
    requires cond ==> front <= p.lower < p.upper <= back && p.pivot == (p.lower + p.upper) / 2
    ensures QueueWithin(PushIf(q, cond, p), front, back)
    ensures Weight(PushIf(q, cond, p)) == Weight(q) + if cond then Width(p) else 0
  {
    if cond {
      var r := q + [p];
      assert forall k :: 0 <= k < |r| ==> r[k] == if k < |q| then q[k] else p;
      WeightAppend(q, p);
    }
  }

  /**
   * Requeueing the halves of the first range, split after `up`, keeps every
   * range within bounds and leaves a lighter queue: the halves' widths add
   * up to one less than the range's.
   */
  lemma RequeueShrinks(q: seq<Pivot>, lo: nat, up: nat, front: nat, back: nat)
    requires q != [] && QueueWithin(q, front, back)
    requires q[0].lower <= up < q[0].upper && lo == up + 1
    ensures QueueWithin(Requeue(q[1..], q[0], lo, up), front, back)
    ensures Weight(Requeue(q[1..], q[0], lo, up)) < Weight(q)
  {
    var p, rest := q[0], q[1..];
    assert QueueWithin(rest, front, back) by {
      assert forall k :: 0 <= k < |rest| ==> rest[k] == q[k + 1];
    }
    assert Weight(q) == p.upper - p.lower + Weight(rest);
    var mid := PushIf(rest, p.lower < up, Part(p.lower, up));
    PushIfFacts(rest, p.lower < up, Part(p.lower, up), front, back);
    PushIfFacts(mid, p.upper > lo, Part(lo, p.upper), front, back);
  }

  /**
   * `less` is a strict weak order, as a sort comparator must be: nothing is
   * below itself, "below" is transitive, and so is "not below".
   */
  ghost predicate StrictWeakOrder<T(!new)>(less: (T, T) -> bool)
  {
    forall x, y, z :: OrderLaws(less, x, y, z)
  }

  /** The laws of a strict weak order for `x`, `y` and `z`. */
  ghost predicate OrderLaws<T>(less: (T, T) -> bool, x: T, y: T, z: T)
  {
    !less(x, x)
    && (less(x, y) && less(y, z) ==> less(x, z))
    && (!less(x, y) && !less(y, z) ==> !less(x, z))
  }

  /** Positions `lo` up to `hi` of `a` are in order: no element is below one before it. */
  ghost predicate SortedWithin<T>(a: seq<T>, lo: nat, hi: nat, less: (T, T) -> bool)
  {
    hi <= |a| && forall i, j :: lo <= i < j < hi ==> !less(a[j], a[i])
  }

  /**
   * The corrected cursor step. Away from the meeting point it is the
   * original one; where the cursors meet, the element under them goes to
   * the lower part when it is not above the pivot element and to the upper
   * part otherwise.
   */
  function NextCursorsCorrected(lo: nat, up: nat, lower: nat, upper: nat, lowerBigger: bool, upperSmaller: bool): (nat, nat)
  {
    if lo == up then
      (if upperSmaller && lo < upper then lo + 1 else lo,
       if !upperSmaller && up > lower then up - 1 else up)
    else
      NextCursors(lo, up, lower, upper, lowerBigger, upperSmaller)
  }

  /**
   * One turn of the corrected partition loop on the values `a`: the
   * elements under the cursors are compared with `v`, the pivot element
   * copied before the loop, so swaps cannot change what they are compared
   * with.
   */
  function PassStepCorrected<T>(a: seq<T>, p: Pivot, v: T, lo: nat, up: nat, less: (T, T) -> bool): (r: (seq<T>, nat, nat))
    requires lo < |a| && up < |a|
    ensures |r.0| == |a|
    ensures multiset(r.0) == multiset(a)
  {
    var lowerBigger := !less(a[lo], v);
    var upperSmaller := !less(v, a[up]);
    var b := if lowerBigger && upperSmaller then a[lo := a[up]][up := a[lo]] else a;
    var next := NextCursorsCorrected(lo, up, p.lower, p.upper, lowerBigger, upperSmaller);
    (b, next.0, next.1)
  }

  /**
   * The state of the corrected partition loop over `p`, started on `a0`:
   * the cursors inside the range and at most one apart once crossed; while
   * a cursor has not moved nothing has been swapped and the other cursor
   * has not passed the pivot; everything below `lo` is not above `v` and
   * everything above `up` is not below it.
   */
  ghost predicate Partitioning<T>(a: seq<T>, a0: seq<T>, p: Pivot, v: T, lo: nat, up: nat, less: (T, T) -> bool)
  {
    PartitionCursors(a, a0, p, v, lo, up)
    && PermutedWithin(a, a0, p.lower, p.upper + 1)
    && PartitionSides(a, p, v, lo, up, less)
  }

  /** The cursor part of `Partitioning`. */
  ghost predicate PartitionCursors<T>(a: seq<T>, a0: seq<T>, p: Pivot, v: T, lo: nat, up: nat)
  {
    |a| == |a0| && p.lower < p.upper < |a0| && p.pivot == (p.lower + p.upper) / 2 && v == a0[p.pivot]
    && p.lower <= lo <= p.upper && p.lower <= up <= p.upper && lo <= up + 1
    && (up == p.upper ==> lo <= p.pivot && a == a0)
    && (lo == p.lower ==> p.pivot <= up && a == a0)
  }

  /** The ordering part of `Partitioning`: below `lo` nothing above `v`, above `up` nothing below it. */
  ghost predicate PartitionSides<T>(a: seq<T>, p: Pivot, v: T, lo: nat, up: nat, less: (T, T) -> bool)
  {
    lo <= p.upper < |a|
    && (forall i :: p.lower <= i < lo ==> !less(v, a[i]))
    && (forall i :: up < i <= p.upper ==> !less(a[i], v))
  }

  /** Under a strict weak order, `x` below `y` means `y` is not below `x`. */
  lemma Asymmetric<T(!new)>(less: (T, T) -> bool, x: T, y: T)
    requires StrictWeakOrder(less) && less(x, y)
    ensures !less(y, x)
  {
    assert OrderLaws(less, x, y, x);
  }

  /**
   * The corrected cursors stay in the range, at most one apart once
   * crossed, close in, and leave a cursor in place only when nothing is
   * swapped and the other has not passed the pivot. At the meeting point
   * the element goes where it belongs: `lo` moves when it is not above the
   * pivot element and `up` moves when it is above.
   */
  lemma CorrectedCursorsStep(lo: nat, up: nat, lower: nat, upper: nat, pivot: nat, lowerBigger: bool, upperSmaller: bool)
    requires lower < upper && pivot == (lower + upper) / 2
    requires lower <= lo <= up <= upper
    requires up == upper ==> lo <= pivot
    requires lo == lower ==> pivot <= up
    requires up == upper && lo == pivot ==> lowerBigger
    requires lo == lower && up == pivot ==> upperSmaller
    ensures var next := NextCursorsCorrected(lo, up, lower, upper, lowerBigger, upperSmaller);
      lower <= next.0 <= upper && lower <= next.1 <= upper && next.0 <= next.1 + 1
      && (next.1 == upper ==> next.0 <= pivot && (lo == up || !(lowerBigger && upperSmaller)))
      && (next.0 == lower ==> pivot <= next.1 && (lo == up || !(lowerBigger && upperSmaller)))
      && (lo == up ==> (next.0 == lo + 1 <==> upperSmaller) && (next.1 == up - 1 <==> !upperSmaller))
      && next.1 + 1 - next.0 < up + 1 - lo
  {
  }

  /** One turn of the corrected partition loop keeps its state and closes the cursors in. */
  lemma CorrectedStepKeeps<T(!new)>(a: seq<T>, a0: seq<T>, p: Pivot, v: T, lo: nat, up: nat, less: (T, T) -> bool)
    requires StrictWeakOrder(less) && Partitioning(a, a0, p, v, lo, up, less) && lo <= up
    ensures var r := PassStepCorrected(a, p, v, lo, up, less);
      Partitioning(r.0, a0, p, v, r.1, r.2, less) && r.2 + 1 - r.1 < up + 1 - lo
  {
    assert OrderLaws(less, v, v, v);
    CorrectedStepCursors(a, a0, p, v, lo, up, less);
    CorrectedStepSides(a, p, v, lo, up, less);
    CorrectedStepPermutes(a, a0, p, v, lo, up, less);
  }

  /** One turn of the corrected partition loop rearranges only the range it works on. */
  lemma CorrectedStepPermutes<T>(a: seq<T>, a0: seq<T>, p: Pivot, v: T, lo: nat, up: nat, less: (T, T) -> bool)
    requires p.lower <= lo <= p.upper && p.lower <= up <= p.upper
    requires PermutedWithin(a, a0, p.lower, p.upper + 1)
    ensures PermutedWithin(PassStepCorrected(a, p, v, lo, up, less).0, a0, p.lower, p.upper + 1)
  {
    if !less(a[lo], v) && !less(v, a[up]) {
      SwapPermutes(a, lo, up, p.lower, p.upper + 1);
      PermutedWithinTrans(a[lo := a[up]][up := a[lo]], a, a0, p.lower, p.upper + 1);
    }
  }

  /**
   * One turn of the corrected partition loop keeps the cursors' state and
   * closes them in. The element at the pivot is not below itself, so while
   * nothing has moved neither cursor stops at the pivot.
   */
  lemma CorrectedStepCursors<T>(a: seq<T>, a0: seq<T>, p: Pivot, v: T, lo: nat, up: nat, less: (T, T) -> bool)
    requires !less(v, v) && PartitionCursors(a, a0, p, v, lo, up) && lo <= up
    ensures var r := PassStepCorrected(a, p, v, lo, up, less);
      PartitionCursors(r.0, a0, p, v, r.1, r.2) && r.2 + 1 - r.1 < up + 1 - lo
  {
    var lb, us := !less(a[lo], v), !less(v, a[up]);
    CorrectedCursorsStep(lo, up, p.lower, p.upper, p.pivot, lb, us);
    var r := PassStepCorrected(a, p, v, lo, up, less);
    if !(lb && us) || lo == up {
      assert r.0 == a;
    }
  }

  /**
   * After one turn of the corrected partition loop the elements below the
   * new `lo` are still not above `v` and those above the new `up` not below
   * it: the one element each cursor passes is checked, or swapped in checked.
   */
  lemma CorrectedStepSides<T(!new)>(a: seq<T>, p: Pivot, v: T, lo: nat, up: nat, less: (T, T) -> bool)
    requires StrictWeakOrder(less) && p.lower <= lo <= up <= p.upper
    requires PartitionSides(a, p, v, lo, up, less)
    ensures var r := PassStepCorrected(a, p, v, lo, up, less);
      PartitionSides(r.0, p, v, r.1, r.2, less)
  {
    var lb, us := !less(a[lo], v), !less(v, a[up]);
    var r := PassStepCorrected(a, p, v, lo, up, less);
    if !lb {
      Asymmetric(less, a[lo], v);
    }
    if !us {
      Asymmetric(less, v, a[up]);
    }
    assert r.1 <= lo + 1 && up - 1 <= r.2;
    assert forall i :: p.lower <= i < lo ==> r.0[i] == a[i];
    assert forall i :: up < i <= p.upper ==> r.0[i] == a[i];
    assert r.1 == lo + 1 ==> !less(v, r.0[lo]);
    assert r.2 == up - 1 ==> !less(r.0[up], v);
  }

  /** Two partition ranges share no position. */
  predicate Apart(x: Pivot, y: Pivot)
  {
    x.upper < y.lower || y.upper < x.lower
  }

  /** The queued ranges pairwise share no position. */
  predicate Disjoint(q: seq<Pivot>)
  {
    forall k, m :: 0 <= k < m < |q| ==> Apart(q[k], q[m])
  }

  /** Positions `i` and `j` both lie in one queued range. */
  ghost predicate Together(q: seq<Pivot>, i: int, j: int)
  {
    exists k :: 0 <= k < |q| && q[k].lower <= i && j <= q[k].upper
  }

  /**
   * The sort's progress: within `[front, back]`, every two positions that
   * no queued range holds together are already in order.
   */
  ghost predicate SortedOutside<T>(a: seq<T>, q: seq<Pivot>, front: nat, back: nat, less: (T, T) -> bool)
  {
    back < |a| && forall i, j :: front <= i < j <= back && !Together(q, i, j) ==> !less(a[j], a[i])
  }

  /** A conditional push of a range apart from every queued one keeps the queue disjoint. */
  lemma DisjointPushIf(q: seq<Pivot>, cond: bool, p: Pivot)
    requires Disjoint(q) && forall k :: 0 <= k < |q| ==> Apart(q[k], p)
    ensures Disjoint(PushIf(q, cond, p))
  {
    if cond {
      var r := q + [p];
      assert forall k :: 0 <= k < |r| ==> r[k] == if k < |q| then q[k] else p;
    }
  }

  /** The halves of a partitioned range, queued behind the rest, keep the queue disjoint. */
  lemma RequeueDisjoint(q: seq<Pivot>, lo: nat, up: nat)
    requires q != [] && Disjoint(q)
    requires q[0].lower <= up < q[0].upper && lo == up + 1
    ensures Disjoint(Requeue(q[1..], q[0], lo, up))
  {
    var p, rest := q[0], q[1..];
    assert forall k :: 0 <= k < |rest| ==> rest[k] == q[k + 1] && Apart(p, q[k + 1]);
    var left, right := Part(p.lower, up), Part(lo, p.upper);
    DisjointPushIf(rest, p.lower < up, left);
    var mid := PushIf(rest, p.lower < up, left);
    assert forall k :: 0 <= k < |mid| ==> mid[k] == if k < |rest| then rest[k] else left;
    DisjointPushIf(mid, p.upper > lo, right);
  }

  /** Positions held together by the queue are held by its first range or by the rest. */
  lemma TogetherSplit(q: seq<Pivot>, i: int, j: int)
    requires q != [] && Together(q, i, j)
    ensures (q[0].lower <= i && j <= q[0].upper) || Together(q[1..], i, j)
  {
    var k :| 0 <= k < |q| && q[k].lower <= i && j <= q[k].upper;
    if k > 0 {
      assert q[1..][k - 1] == q[k];
    }
  }

  /**
   * Positions the rest of the queue holds together, and two positions in
   * one half of the partitioned first range, are held together after the
   * requeue.
   */
  lemma RequeueTogether(q: seq<Pivot>, lo: nat, up: nat, i: int, j: int)
    requires q != [] && i < j
    ensures Together(q[1..], i, j) || (q[0].lower <= i && j <= up) || (lo <= i && j <= q[0].upper)
      ==> Together(Requeue(q[1..], q[0], lo, up), i, j)
  {
    var p, rest := q[0], q[1..];
    var left, right := Part(p.lower, up), Part(lo, p.upper);
    var mid := PushIf(rest, p.lower < up, left);
    var r := PushIf(mid, p.upper > lo, right);
    assert forall k :: 0 <= k < |mid| ==> r[k] == mid[k];
    assert forall k :: 0 <= k < |rest| ==> mid[k] == rest[k];
    if Together(rest, i, j) {
      var k :| 0 <= k < |rest| && rest[k].lower <= i && j <= rest[k].upper;
      assert r[k] == rest[k];
    } else if p.lower <= i && j <= up {
      assert mid[|rest|] == left;
      assert r[|rest|] == left;
    } else if lo <= i && j <= p.upper {
      assert r[|mid|] == right;
    }
  }

  /** Two positions, one inside the first range of a disjoint queue and one beyond it, share no range. */
  lemma ApartFromFirst(q: seq<Pivot>, i: int, j: int)
    requires q != [] && Disjoint(q)
    requires (q[0].lower <= i <= q[0].upper < j) || (i < q[0].lower <= j <= q[0].upper)
    ensures !Together(q, i, j)
  {
    assert forall k :: 0 < k < |q| ==> Apart(q[0], q[k]);
  }

  /** An element of a rearranged range comes from the same range before the rearrangement. */
  lemma ValueFrom<T>(a: seq<T>, b: seq<T>, lo: nat, hi: nat, i: nat) returns (i0: nat)
    requires PermutedWithin(a, b, lo, hi) && lo <= i < hi
    ensures lo <= i0 < hi && b[i0] == a[i]
  {
    assert a[lo..hi][i - lo] == a[i];
    assert a[i] in multiset(b[lo..hi]);
    var k :| 0 <= k < hi - lo && b[lo..hi][k] == a[i];
    i0 := lo + k;
  }

  /**
   * Two positions the requeued queue does not hold together are in order
   * after a pass that split the first range around the pivot element `v`:
   * both in the first range means one on each side of `v`; one in it means
   * the element came from a position the old queue did not hold together
   * with the other; neither in it means nothing moved.
   */
  lemma PairOrdered<T(!new)>(a: seq<T>, b: seq<T>, q: seq<Pivot>, v: T, lo: nat, up: nat, front: nat, back: nat, less: (T, T) -> bool, i: nat, j: nat)
    requires StrictWeakOrder(less) && q != [] && Disjoint(q) && QueueWithin(q, front, back)
    requires q[0].lower <= up < q[0].upper && lo == up + 1
    requires PermutedWithin(a, b, q[0].lower, q[0].upper + 1)
    requires PartitionSides(a, q[0], v, lo, up, less)
    requires SortedOutside(b, q, front, back, less)
    requires front <= i < j <= back && !Together(q[1..], i, j)
    requires !(q[0].lower <= i && j <= up) && !(lo <= i && j <= q[0].upper)
    ensures !less(a[j], a[i])
  {
    var lower, upper := q[0].lower, q[0].upper;
    if lower <= i && j <= upper {
      assert !less(v, a[i]) && !less(a[j], v) && OrderLaws(less, a[j], v, a[i]);
    } else if lower <= i <= upper {
      var i0 := ValueFrom(a, b, lower, upper + 1, i);
      ApartFromFirst(q, i0, j);
    } else if lower <= j <= upper {
      var j0 := ValueFrom(a, b, lower, upper + 1, j);
      ApartFromFirst(q, i, j0);
    } else if Together(q, i, j) {
      TogetherSplit(q, i, j);
    }
  }

  /**
   * A partition pass over the first range, then the requeue of its halves,
   * keeps the queue disjoint and every pair it no longer holds together in
   * order.
   */
  lemma RequeueOrdered<T(!new)>(a: seq<T>, b: seq<T>, q: seq<Pivot>, v: T, lo: nat, up: nat, front: nat, back: nat, less: (T, T) -> bool)
    requires StrictWeakOrder(less) && q != [] && Disjoint(q) && QueueWithin(q, front, back)
    requires q[0].lower <= up < q[0].upper && lo == up + 1
    requires PermutedWithin(a, b, q[0].lower, q[0].upper + 1)
    requires PartitionSides(a, q[0], v, lo, up, less)
    requires SortedOutside(b, q, front, back, less)
    ensures Disjoint(Requeue(q[1..], q[0], lo, up))
    ensures SortedOutside(a, Requeue(q[1..], q[0], lo, up), front, back, less)
  {
    RequeueDisjoint(q, lo, up);
    var r := Requeue(q[1..], q[0], lo, up);
    forall i, j | front <= i < j <= back && !Together(r, i, j)
      ensures !less(a[j], a[i])
    {
      RequeueTogether(q, lo, up, i, j);
      PairOrdered(a, b, q, v, lo, up, front, back, less, i, j);
    }
  }

  /**
   * One turn of the corrected sort on values: a pass over the head range of
   * the queue that split it around `v`, then the requeue, keeps the queue
   * within bounds and disjoint, makes it lighter, keeps the sort a
   * rearrangement of `s` and keeps the pairs outside the queue in order.
   */
  lemma SortTurnSteps<T(!new)>(a: seq<T>, b: seq<T>, s: seq<T>, q: seq<Pivot>, v: T, lo: nat, up: nat, front: nat, back: nat, less: (T, T) -> bool)
    requires StrictWeakOrder(less) && q != [] && Disjoint(q) && QueueWithin(q, front, back) && back < |b|
    requires q[0].lower <= up < q[0].upper && lo == up + 1
    requires PermutedWithin(a, b, q[0].lower, q[0].upper + 1) && PermutedWithin(b, s, front, back + 1)
    requires forall i :: q[0].lower <= i < lo ==> !less(v, a[i])
    requires forall i :: lo <= i <= q[0].upper ==> !less(a[i], v)
    requires SortedOutside(b, q, front, back, less)
    ensures QueueWithin(Requeue(q[1..], q[0], lo, up), front, back) && Disjoint(Requeue(q[1..], q[0], lo, up))
    ensures Weight(Requeue(q[1..], q[0], lo, up)) < Weight(q)
    ensures PermutedWithin(a, s, front, back + 1)
    ensures SortedOutside(a, Requeue(q[1..], q[0], lo, up), front, back, less)
  {
    PermutedWithinCompose(a, b, s, q[0].lower, q[0].upper + 1, front, back + 1);
    RequeueShrinks(q, lo, up, front, back);
    RequeueOrdered(a, b, q, v, lo, up, front, back, less);
  }

  /** The sort's first queue, the whole range, holds every pair of its positions together. */
  lemma FirstQueueOrdered<T>(a: seq<T>, front: nat, back: nat, less: (T, T) -> bool)
    requires front <= back < |a|
    ensures Disjoint([Part(front, back)])
    ensures SortedOutside(a, [Part(front, back)], front, back, less)
  {
    forall i, j | front <= i < j <= back
      ensures Together([Part(front, back)], i, j)
    {
      assert [Part(front, back)][0] == Part(front, back);
    }
  }

  /** Erasing the range `Insert(pos, values)` filled restores the array. */
  lemma EraseUndoesInsert<T>(s: seq<T>, p: nat, v: seq<T>)
    requires p <= |s|
    ensures Erased(Inserted(s, p, v), p, p + |v|) == s
  {
    var t := Inserted(s, p, v);
    assert t[..p] == s[..p];
    assert t[p + |v|..] == s[p..];
  }

  /** `Resize` keeps the elements both sizes share and fills every new slot with `fill`. */
  lemma ResizedKeepsPrefix<T>(s: seq<T>, n: nat, fill: T)
    ensures |Resized(s, n, fill)| == n
    ensures forall i :: 0 <= i < n && i < |s| ==> Resized(s, n, fill)[i] == s[i]
    ensures forall i :: |s| <= i < n ==> Resized(s, n, fill)[i] == fill
  {
  }

  /**
   * The range `Insert` as written agrees with a correct insertion exactly when
   * nothing is inserted, the values go at the end, or the element it loses
   * equals the one it leaves in its place.
   */
  lemma InsertRangeAgreesIff<T>(s: seq<T>, p: nat, v: seq<T>, fill: T)
    requires p <= |s|
    ensures InsertedAsWritten(s, p, v, fill) == Inserted(s, p, v) <==>
            (|v| == 0 || p == |s| || s[p] == Resized(s, |s| + |v|, fill)[p + |v|])
  {
    if |v| > 0 && p < |s| {
      var w := InsertedAsWritten(s, p, v, fill);
      var c := Inserted(s, p, v);
      assert w[p + |v|] == Resized(s, |s| + |v|, fill)[p + |v|];
      assert c[p + |v|] == s[p];
      if s[p] == Resized(s, |s| + |v|, fill)[p + |v|] {
        assert forall j :: 0 <= j < |w| ==> w[j] == c[j];
      }
    }
  }

  /** Inserting `[9]` at the front of `[1, 2, 3]` with the range `Insert` as written loses the `1`. */
  lemma InsertRangeCounterexample()
    ensures InsertedAsWritten([1, 2, 3], 0, [9], 0) == [9, 2, 2, 3]
    ensures Inserted([1, 2, 3], 0, [9]) == [9, 1, 2, 3]
  {
    InsertRangeAgreesIff([1, 2, 3], 0, [9], 0);
    assert Resized([1, 2, 3], 4, 0)[1] == 2;
  }

  /** With `==` as the element equality, `operator==` is sequence equality. */
  lemma SameElementsIsEquality<T>(a: seq<T>, b: seq<T>)
    ensures SameElements(a, b, (x, y) => x == y) <==> a == b
  {
    if SameElements(a, b, (x, y) => x == y) {
      assert forall i :: 0 <= i < |a| ==> a[i] == b[i];
    }
  }

  /**
   * With the non-strict `<=` as `less`, the partition pass over `[0, 1, 0]`
   * (pivot index 1) never swaps and moves its cursors from `(0, 2)` to
   * `(1, 2)` to `(2, 2)`, where they stay with `lo <= up`: the loop does not end.
   */
  lemma NonStrictLessStalls()
    ensures var a, less := [0, 1, 0], (x: int, y: int) => x <= y;
            var p := Pivot(1, 0, 2);
            var lb := (lo: nat) => lo < 3 && !less(a[lo], a[p.pivot]);
            var us := (up: nat) => up < 3 && !less(a[p.pivot], a[up]);
            !(lb(0) && us(2)) && NextCursors(0, 2, p.lower, p.upper, lb(0), us(2)) == (1, 2)
            && !(lb(1) && us(2)) && NextCursors(1, 2, p.lower, p.upper, lb(1), us(2)) == (2, 2)
            && !(lb(2) && us(2)) && NextCursors(2, 2, p.lower, p.upper, lb(2), us(2)) == (2, 2)
  {
  }

  /**
   * `Sort` as written on `[1, 2, 3, 0]` with `<`, pass by pass. The first
   * pass (range 0..3, pivot index 1, pivot element 2) swaps 2 and 0 at
   * cursors (1, 3), so the pivot index then holds 0; where the cursors meet,
   * at 2, the element 3 joins the lower side whatever it compares as, and only `[0, 2]`
   * is queued. The passes over `[0, 2]` and `[1, 2]` give `[0, 1, 3, 2]` and
   * queue nothing more, so `Sort` ends with 3 before the smaller 2.
   */
  lemma SortAsWrittenTrace()
    ensures var less := (x: int, y: int) => x < y;
      PassStep([1, 2, 3, 0], Part(0, 3), 0, 3, less) == ([1, 2, 3, 0], 1, 3)
      && PassStep([1, 2, 3, 0], Part(0, 3), 1, 3, less) == ([1, 0, 3, 2], 2, 2)
      && PassStep([1, 0, 3, 2], Part(0, 3), 2, 2, less) == ([1, 0, 3, 2], 3, 2)
      && Requeue([], Part(0, 3), 3, 2) == [Part(0, 2)]
      && PassStep([1, 0, 3, 2], Part(0, 2), 0, 2, less) == ([1, 0, 3, 2], 0, 1)
      && PassStep([1, 0, 3, 2], Part(0, 2), 0, 1, less) == ([0, 1, 3, 2], 1, 0)
      && Requeue([], Part(0, 2), 1, 0) == [Part(1, 2)]
      && PassStep([0, 1, 3, 2], Part(1, 2), 1, 2, less) == ([0, 1, 3, 2], 1, 1)
      && PassStep([0, 1, 3, 2], Part(1, 2), 1, 1, less) == ([0, 1, 3, 2], 2, 1)
      && Requeue([], Part(1, 2), 2, 1) == []
      && less([0, 1, 3, 2][3], [0, 1, 3, 2][2])
  {
    var less := (x: int, y: int) => x < y;
    TraceFirstPass(less);
    TraceSecondPass(less);
    TraceThirdPass(less);
  }

  /** The first pass of the trace above, over the whole range `[0, 3]`. */
  lemma TraceFirstPass(less: (int, int) -> bool)
    requires forall x, y :: less(x, y) == (x < y)
    ensures PassStep([1, 2, 3, 0], Part(0, 3), 0, 3, less) == ([1, 2, 3, 0], 1, 3)
    ensures PassStep([1, 2, 3, 0], Part(0, 3), 1, 3, less) == ([1, 0, 3, 2], 2, 2)
    ensures PassStep([1, 0, 3, 2], Part(0, 3), 2, 2, less) == ([1, 0, 3, 2], 3, 2)
    ensures Requeue([], Part(0, 3), 3, 2) == [Part(0, 2)]
  {
    assert [1, 2, 3, 0][1 := 0][3 := 2] == [1, 0, 3, 2];
  }

  /** The second pass of the trace, over `[0, 2]`. */
  lemma TraceSecondPass(less: (int, int) -> bool)
    requires forall x, y :: less(x, y) == (x < y)
    ensures PassStep([1, 0, 3, 2], Part(0, 2), 0, 2, less) == ([1, 0, 3, 2], 0, 1)
    ensures PassStep([1, 0, 3, 2], Part(0, 2), 0, 1, less) == ([0, 1, 3, 2], 1, 0)
    ensures Requeue([], Part(0, 2), 1, 0) == [Part(1, 2)]
  {
    assert [1, 0, 3, 2][0 := 0][1 := 1] == [0, 1, 3, 2];
  }

  /** The third pass of the trace, over `[1, 2]`, which leaves 3 before 2. */
  lemma TraceThirdPass(less: (int, int) -> bool)
    requires forall x, y :: less(x, y) == (x < y)
    ensures PassStep([0, 1, 3, 2], Part(1, 2), 1, 2, less) == ([0, 1, 3, 2], 1, 1)
    ensures PassStep([0, 1, 3, 2], Part(1, 2), 1, 1, less) == ([0, 1, 3, 2], 2, 1)
    ensures Requeue([], Part(1, 2), 2, 1) == []
  {
    assert [0, 1, 3, 2][1 := 1][1 := 1] == [0, 1, 3, 2];
  }

  /**
   * The elements a reverse iterator reads walking from reverse index `k` down
   * to `rEnd` (index 0): at reverse index `k` it reads element `k - 1`.
   */
  function ReverseWalk<T>(s: seq<T>, k: nat): (r: seq<T>)
    requires k <= |s|
    ensures |r| == k
    ensures forall i :: 0 <= i < k ==> r[i] == s[k - 1 - i]
  {
    if k == 0 then [] else [s[k - 1]] + ReverseWalk(s, k - 1)
  }

  /** Converting a reverse iterator to a forward one: index `k` becomes `k - 1`, the element it reads. */
  function ReverseToForward(k: nat): (i: int)
    ensures i + 1 == k
  {
    k - 1
  }

  /** Converting a forward iterator to a reverse one: index `i` becomes `i + 1`. */
  function ForwardToReverse(i: nat): (k: nat)
    ensures ReverseToForward(k) == i
  {
    i + 1
  }
}
