/**
 * The fixed-length array `wtr::StaticArray<T, Count>`: `Count` (at least one)
 * elements held in place. The template parameter `Count` is the constant
 * `count`; `T{}` is a `blank` value given at construction. Element equality
 * is Dafny's `==`.
 */
module StaticArrays {

  /** An iterator: the array it walks and an index into it (for a reverse iterator, one past the element it reads). */
  datatype ArrayIterator<T> = ArrayIterator(owner: StaticArray<T>, index: nat)

  class StaticArray<T(==)> {
    const count: nat
    var data: array<T>

    /** The buffer holds exactly `count` elements, and there is at least one. */
    ghost predicate Valid()
      reads this
    {
      0 < count && data.Length == count
    }

    /** The elements, in order. */
    function Elements(): (r: seq<T>)
      reads this, data
      requires Valid()
      ensures |r| == count
    {
      data[..]
    }

    /** The default constructor: every element is `T{}`. */
    constructor (count: nat, blank: T)
      requires 0 < count
      ensures Valid() && this.count == count && fresh(data)
      ensures forall i :: 0 <= i < count ==> Elements()[i] == blank
    {
      this.count := count;
      data := new T[count](_ => blank);
    }

    /**
     * Construction from an initializer list of at most `count` values: they
     * fill the first elements in order and `T{}` fills the rest.
     */
    constructor FromList(init: seq<T>, count: nat, blank: T)
      requires 0 < count && |init| <= count
      ensures Valid() && this.count == count && fresh(data)
      ensures Elements()[..|init|] == init
      ensures forall i :: |init| <= i < count ==> Elements()[i] == blank
    {
      this.count := count;
      data := new T[count](_ => blank);
      new;
      var index := 0;
      while index < |init|
        invariant index <= |init| && data.Length == count
        invariant data[..index] == init[..index]
        modifies data
      {
        data[index] := init[index];
        index := index + 1;
      }
      assert data[..|init|] == init;
      while index < count
        invariant |init| <= index <= count
        invariant data[..|init|] == init
        invariant forall i :: |init| <= i < index ==> data[i] == blank
        modifies data
      {
        data[index] := blank;
        index := index + 1;
      }
    }

    /** The copy constructor: equal elements in a buffer of its own. */
    constructor Copy(other: StaticArray<T>)
      requires other.Valid()
      ensures Valid() && count == other.count && fresh(data)
      ensures Elements() == other.Elements()
    {
      count := other.count;
      var first := other.data[0];
      data := new T[other.count](_ => first);
      new;
      CopyFrom(other);
    }

    /** The move constructor: element by element, as for a copy (a moved-from element keeps its value here). */
    constructor Move(other: StaticArray<T>)
      requires other.Valid()
      ensures Valid() && count == other.count && fresh(data)
      ensures Elements() == other.Elements()
    {
      count := other.count;
      var first := other.data[0];
      data := new T[other.count](_ => first);
      new;
      CopyFrom(other);
    }

    /** The element loop of the copy and move operations. */
    method CopyFrom(other: StaticArray<T>)
      requires Valid() && other.Valid() && other.count == count
      requires other.data != data
      modifies data
      ensures Elements() == old(other.Elements())
    {
      var index := 0;
      while index < count
        invariant index <= count
        invariant data[..index] == other.data[..index]
      {
        data[index] := other.data[index];
        index := index + 1;
      }
      assert data[..] == data[..count];
    }

    /** Copy assignment: unless assigned to itself, take the other's elements. */
    method CopyAssign(other: StaticArray<T>)
      requires Valid() && other.Valid() && other.count == count
      requires other != this ==> other.data != data
      modifies data
      ensures Elements() == old(other.Elements())
    {
      if other != this {
        CopyFrom(other);
      }
    }

    /**
     * Move assignment: each element of the other array is moved in, taken
     * here as a copy. There is no self check; on itself the model keeps every
     * element, which the source leaves to the element type's move.
     */
    method MoveAssign(other: StaticArray<T>)
      requires Valid() && other.Valid() && other.count == count
      requires other != this ==> other.data != data
      modifies data
      ensures Elements() == old(other.Elements())
    {
      if other.data == data {
        return;
      }
      CopyFrom(other);
    }

    /** `operator==`: every one of the `count` elements is equal. */
    method Equals(other: StaticArray<T>) returns (r: bool)
      requires Valid() && other.Valid() && other.count == count
      ensures r <==> Elements() == other.Elements()
    {
      var index := 0;
      while index < count
        invariant index <= count
        invariant data[..index] == other.data[..index]
      {
        if data[index] != other.data[index] {
          assert Elements()[index] != other.Elements()[index];
          return false;
        }
        index := index + 1;
      }
      assert data[..] == data[..count] && other.data[..] == other.data[..count];
      return true;
    }

    /** `operator[]` and `At`: the element at `index`, which must lie below `count`. */
    function At(index: nat): (r: T)
      reads this, data
      requires Valid() && index < count
      ensures r == Elements()[index]
    {
      data[index]
    }

    /** `Front()`: the first element. */
    function Front(): (r: T)
      reads this, data
      requires Valid()
      ensures r == Elements()[0]
    {
      data[0]
    }

    /** `Back()`: the last element. */
    function Back(): (r: T)
      reads this, data
      requires Valid()
      ensures r == Elements()[count - 1]
    {
      data[count - 1]
    }

    /** `Size()`: always `count`. */
    function Size(): (r: nat)
      reads this
      requires Valid()
      ensures r == data.Length
    {
      count
    }

    /** A write through the reference `operator[]` returns: only element `index` changes. */
    method Store(index: nat, value: T)
      requires Valid() && index < count
      modifies data
      ensures Elements() == old(Elements())[index := value]
      ensures At(index) == value && forall i :: 0 <= i < count && i != index ==> At(i) == old(At(i))
    {
      data[index] := value;
    }

    /** `Fill(args)`: every element becomes the value constructed from `args`. */
    method Fill(value: T)
      requires Valid()
      modifies data
      ensures forall i :: 0 <= i < count ==> Elements()[i] == value
    {
      var index := 0;
      while index < count
        invariant index <= count
        invariant forall i :: 0 <= i < index ==> data[i] == value
      {
        data[index] := value;
        index := index + 1;
      }
    }

    /** `Begin()`: index 0. */
    function Begin(): (r: ArrayIterator<T>)
    {
      ArrayIterator(this, 0)
    }

    /** `End()`: index `count`. */
    function End(): (r: ArrayIterator<T>)
    {
      ArrayIterator(this, count)
    }

    /** `rBegin()`: index `count`, reading the last element. */
    function RBegin(): (r: ArrayIterator<T>)
    {
      ArrayIterator(this, count)
    }

    /** `rEnd()`: index 0. */
    function REnd(): (r: ArrayIterator<T>)
    {
      ArrayIterator(this, 0)
    }
  }

  /** `++` on an iterator, which must not be at the end. */
  function Increment<T>(it: ArrayIterator<T>): (r: ArrayIterator<T>)
    reads it.owner
    requires it.owner.Valid() && it.index < it.owner.count
    ensures r.owner == it.owner && r.index <= it.owner.count
  {
    ArrayIterator(it.owner, it.index + 1)
  }

  /** `--` on an iterator, which must not be at the beginning. */
  function Decrement<T>(it: ArrayIterator<T>): (r: ArrayIterator<T>)
    requires it.index > 0
    ensures r.owner == it.owner && r.index < it.index
  {
    ArrayIterator(it.owner, it.index - 1)
  }

  /** `*` on an iterator: the element at its index, which must not be the end. */
  function Deref<T>(it: ArrayIterator<T>): (r: T)
    reads it.owner, it.owner.data
    requires it.owner.Valid() && it.index < it.owner.count
    ensures r == it.owner.Elements()[it.index]
  {
    it.owner.data[it.index]
  }

  /** `++` on a reverse iterator, which moves towards the front and must not be at index 0. */
  function RIncrement<T>(it: ArrayIterator<T>): (r: ArrayIterator<T>)
    requires it.index > 0
    ensures r.owner == it.owner && r.index < it.index
  {
    ArrayIterator(it.owner, it.index - 1)
  }

  /** `--` on a reverse iterator, which moves towards the back and must not pass `count`. */
  function RDecrement<T>(it: ArrayIterator<T>): (r: ArrayIterator<T>)
    reads it.owner
    requires it.owner.Valid() && it.index < it.owner.count
    ensures r.owner == it.owner && r.index <= it.owner.count
  {
    ArrayIterator(it.owner, it.index + 1)
  }

  /** `*` on a reverse iterator: the element below its index, which must not be 0. */
  function RDeref<T>(it: ArrayIterator<T>): (r: T)
    reads it.owner, it.owner.data
    requires it.owner.Valid() && 0 < it.index <= it.owner.count
  {
    it.owner.data[it.index - 1]
  }

  /** The elements the iterators from `it` up to `End()` read, in order. */
  ghost function ForwardFrom<T>(it: ArrayIterator<T>): seq<T>
    reads it.owner, it.owner.data
    requires it.owner.Valid() && it.index <= it.owner.count
    decreases it.owner.count - it.index
  {
    if it.index == it.owner.count then [] else [Deref(it)] + ForwardFrom(Increment(it))
  }

  /** The elements the reverse iterators from `it` down to `rEnd()` read, in order. */
  ghost function BackwardFrom<T>(it: ArrayIterator<T>): seq<T>
    reads it.owner, it.owner.data
    requires it.owner.Valid() && it.index <= it.owner.count
    decreases it.index
  {
    if it.index == 0 then [] else [RDeref(it)] + BackwardFrom(RIncrement(it))
  }

  /** From `Begin()` to `End()` the iterators read every element in order. */
  lemma {:induction false} ForwardReadsAll<T>(a: StaticArray<T>, i: nat)
    requires a.Valid() && i <= a.count
    ensures ForwardFrom(ArrayIterator(a, i)) == a.Elements()[i..]
    decreases a.count - i
  {
    if i < a.count {
      ForwardReadsAll(a, i + 1);
    }
  }

  /** From `rBegin()` to `rEnd()` the reverse iterators read the elements last first. */
  lemma {:induction false} BackwardReadsReversed<T>(a: StaticArray<T>, i: nat)
    requires a.Valid() && i <= a.count
    ensures |BackwardFrom(ArrayIterator(a, i))| == i
    ensures forall j :: 0 <= j < i ==> BackwardFrom(ArrayIterator(a, i))[j] == a.Elements()[i - 1 - j]
    decreases i
  {
    if i > 0 {
      BackwardReadsReversed(a, i - 1);
    }
  }
}
