/**
 * `wtr::HashTable<Key, Data, Hasher, Comparer, Selector>`: an open-addressing
 * table with Robin Hood probing over a `DynamicArray` of slots. The hasher,
 * the selector (which extracts an element's key) and the comparer used by
 * lookups are the function-typed constants `hash`, `key` and `cmp`; `blank`
 * is the value `Data{}` a default slot holds.
 */
module HashTables {
  import opened Ring
  import opened RobinHood
  import opened DynamicArrays
  import opened TableWalks

  /** An iterator: the table it was taken from and a slot index (`MaxSize()` is the end). */
  datatype TableIterator<K(==,!new), D(==,!new)> = TableIterator(owner: HashTable<K, D>, index: nat)

  /**
   * `m_count >= MaxSize() * LOAD_FACTOR`, with the factor 0.7 as the
   * fraction 7/10. The `float` 0.7 is 11744051 / 2^24, a little below 7/10;
   * `NeedsRehashAgrees` shows the two tests agree below 2^23 slots.
   */
  predicate NeedsRehash(count: nat, maxSize: nat)
  {
    10 * count >= 7 * maxSize
  }

  /**
   * Below 2^23 slots the test with 7/10 is the test with the `float` factor
   * 11744051 / 2^24. For the power-of-two sizes `Emplace` grows through, the
   * `float` product `MaxSize() * LOAD_FACTOR` is exact and the count
   * converts exactly, so this is the comparison the table makes.
   */
  lemma NeedsRehashAgrees(count: nat, maxSize: nat)
    requires maxSize < 8388608
    ensures NeedsRehash(count, maxSize) <==> 16777216 * count >= 11744051 * maxSize
  {
    if NeedsRehash(count, maxSize) {
      assert 83886080 * count >= 58720256 * maxSize;
    } else {
      assert 10 * count <= 7 * maxSize - 1;
      assert 83886080 * count <= 58720256 * maxSize - 8388608;
    }
  }

  /** The size `Emplace` rehashes to: 4 for an empty table, double otherwise. */
  function GrownSize(count: nat, maxSize: nat): nat
  {
    if count == 0 then 4 else maxSize * 2
  }

  /** A reverse iterator: the table and one past the slot it reads (0 is the end). */
  datatype ReverseTableIterator<K(==,!new), D(==,!new)> = ReverseTableIterator(owner: HashTable<K, D>, index: nat)

  /** The comparer agrees with key equality, as the default `DefaultComparer` does. */
  ghost predicate IsEquality<K(!new)>(cmp: (K, K) -> bool)
  {
    forall a, b :: cmp(a, b) <==> a == b
  }

  /** The elements after `Emplace(d)`: `d` joins them unless an element already has its key. */
  ghost function EmplaceOne<K, D>(m: multiset<D>, d: D, key: D -> K): multiset<D>
  {
    if forall x :: x in m ==> key(x) != key(d) then m + multiset{d} else m
  }

  /** The elements after emplacing each of `s` in turn. */
  ghost function EmplaceAll<K, D>(m: multiset<D>, s: seq<D>, key: D -> K): multiset<D>
  {
    if s == [] then m else EmplaceOne(EmplaceAll(m, s[..|s| - 1], key), s[|s| - 1], key)
  }

  lemma EmplaceAllStep<K, D>(m: multiset<D>, s: seq<D>, i: nat, key: D -> K)
    requires i < |s|
    ensures EmplaceAll(m, s[..i + 1], key) == EmplaceOne(EmplaceAll(m, s[..i], key), s[i], key)
  {
    assert s[..i + 1][..i] == s[..i];
  }

  /** The elements after each prefix of `s` is emplaced: `states[j]` follows `j` emplacements, the last all of `s`. */
  lemma EmplaceStates<K, D>(m: multiset<D>, s: seq<D>, key: D -> K) returns (states: seq<multiset<D>>)
    ensures |states| == |s| + 1 && states[0] == m && states[|s|] == EmplaceAll(m, s, key)
    ensures forall j :: 0 <= j < |s| ==> states[j + 1] == EmplaceOne(states[j], s[j], key)
  {
    states := seq(|s| + 1, j requires 0 <= j <= |s| => EmplaceAll(m, s[..j], key));
    forall j | 0 <= j < |s|
      ensures states[j + 1] == EmplaceOne(states[j], s[j], key)
    {
      EmplaceAllStep(m, s, j, key);
    }
    assert s[..|s|] == s;
  }

  /** The range length `Erase(first, last)` computes: `(n + last - first) % n`. */
  function EraseLengthAsWritten(first: nat, last: nat, n: nat): nat
    requires 0 < n && first <= n && last <= n
  {
    (n + last - first) % n
  }

  /** The number of slots from `first` up to `last`, going round the end when `last` lies before `first`. */
  function EraseLength(first: nat, last: nat, n: nat): (r: nat)
    requires first <= n && last <= n
    ensures r <= n
  {
    if first <= last then last - first else n + last - first
  }

  /** The two lengths differ exactly for `first == 0, last == n`, a whole table written as zero slots. */
  lemma EraseLengthAgrees(first: nat, last: nat, n: nat)
    requires 0 < n && first <= n && last <= n
    ensures EraseLengthAsWritten(first, last, n) == EraseLength(first, last, n) <==> !(first == 0 && last == n)
    ensures EraseLengthAsWritten(first, last, n) == Dist(first % n, last % n, n)
  {
    ModBelow(first, n);
    ModBelow(last, n);
    if first == 0 && last == n {
      WholeRingLength(n);
    } else {
      ModBelow(n + last - first, n);
    }
  }

  /** Twice the ring size is zero steps round it. */
  lemma WholeRingLength(n: nat)
    requires 0 < n
    ensures (n + n) % n == 0
  {
    assert (n + n) % n == n % n;
  }

  /**
   * A table whose one element sits in slot 0: erasing it through `Erase(pos)`
   * passes `last == n`, so the length as written is 0 and nothing is erased,
   * while the corrected length covers the element.
   */
  lemma EraseAtSlotZeroAsWritten<D>(x: D)
    ensures var t := [Slot(x, 0), Slot(x, -1), Slot(x, -1), Slot(x, -1)];
      var last := UpperIndex(t, 1);
      last == 4 && EraseLengthAsWritten(0, last, 4) == 0 && RangeOccupants(t, 0, 0) == multiset{}
      && RangeOccupants(t, 0, EraseLength(0, last, 4)) == multiset{x}
  {
    var t := [Slot(x, 0), Slot(x, -1), Slot(x, -1), Slot(x, -1)];
    assert UpperIndex(t, 1) == 4;
    assert RangeOccupants(t, 0, 1) == multiset{x};
    assert RangeOccupants(t, 0, 2) == multiset{x};
    assert RangeOccupants(t, 0, 3) == multiset{x};
  }

  /** The ring positions `Erase(first, last)` works on satisfy what `EraseSlots` asks. */
  lemma EraseBounds(first: nat, last: nat, n: nat)
    requires first <= n && last <= n && first != last
    ensures 0 < n && first % n < n && last % n < n
    ensures var length := EraseLength(first, last, n);
      if length < n then length == Dist(first % n, last % n, n) else last % n == first % n
  {
    ModBelow(first, n);
    ModBelow(last, n);
  }

  /** The range `Erase(pos)` hands on, from `pos` to the next occupied slot, holds just `pos`'s element. */
  lemma EraseAtRange<D>(t: seq<Slot<D>>, p: nat, next: nat)
    requires p < next <= |t|
    requires forall j :: p < j < next ==> t[j].psl == -1
    ensures p % |t| == p && EraseLength(p, next, |t|) == next - p
    ensures RangeOccupants(t, p % |t|, EraseLength(p, next, |t|)) == OccupantOf(t[p])
  {
    ModBelow(p, |t|);
    RangeSingle(t, p, next - p);
  }

  /** The elements of the `k` slots from `f` on, when all of them but the first are empty, are the first's. */
  lemma {:induction false} RangeSingle<D>(t: seq<Slot<D>>, f: nat, k: nat)
    requires 0 < k && f + k <= |t|
    requires forall j :: f < j < f + k ==> t[j].psl == -1
    ensures RangeOccupants(t, f, k) == OccupantOf(t[f])
  {
    if k > 1 {
      RangeSingle(t, f, k - 1);
      assert Add(f, k - 1, |t|) == f + k - 1;
    } else {
      assert Add(f, 0, |t|) == f;
    }
  }

  class HashTable<K(==,!new), D(==,!new)> {
    const hash: K -> nat
    const key: D -> K
    const cmp: (K, K) -> bool
    const blank: D
    var slots: DynamicArray<Slot<D>>
    var count: nat

    /** The slot list keeps the Robin Hood invariants and `count` is the number of elements. */
    ghost predicate Valid()
      reads this, slots, slots.data
    {
      slots.Valid() && slots.defaultValue == Slot(blank, -1)
      && Table(slots.Contents(), hash, key) && count == |Occupants(slots.Contents())|
    }

    /** The slot list. */
    function Slots(): seq<Slot<D>>
      reads this, slots, slots.data
      requires slots.Valid()
    {
      slots.Contents()
    }

    /** The elements held. */
    function Elements(): multiset<D>
      reads this, slots, slots.data
      requires slots.Valid()
    {
      Occupants(slots.Contents())
    }

    /** `Size()`: the number of elements. */
    function Size(): (r: nat)
      reads this, slots, slots.data
      requires Valid()
      ensures r == |Elements()|
    {
      count
    }

    /** `MaxSize()`: the number of slots, which is also the end iterator's index. */
    function MaxSize(): (r: nat)
      reads this, slots, slots.data
      requires slots.Valid()
      ensures r == |Slots()|
    {
      slots.size
    }

    /** `Empty()`: no element is held. */
    function Empty(): (r: bool)
      reads this, slots, slots.data
      requires Valid()
      ensures r <==> Elements() == multiset{}
    {
      count == 0
    }

    /** The default constructor: no slots, no elements. */
    constructor (hash: K -> nat, key: D -> K, cmp: (K, K) -> bool, blank: D)
      ensures Valid() && Elements() == multiset{} && MaxSize() == 0 && fresh(slots) && fresh(slots.data)
      ensures this.hash == hash && this.key == key && this.cmp == cmp && this.blank == blank
    {
      this.hash := hash;
      this.key := key;
      this.cmp := cmp;
      this.blank := blank;
      slots := new DynamicArray<Slot<D>>(Slot(blank, -1));
      count := 0;
    }

    /**
     * `FindIndex`: probe from the key's home while the slots hold elements
     * displaced at least as far as the probe has come; the index of the first
     * element the comparer matches, or `MaxSize()`.
     */
    method FindIndex(k: K) returns (r: nat)
      requires Valid()
      ensures r <= MaxSize()
      ensures r < MaxSize() ==> Slots()[r].psl != -1 && cmp(k, key(Slots()[r].data))
      ensures IsEquality(cmp) ==> (r < MaxSize() <==> !KeyAbsent(Slots(), key, k))
    {
      var n := slots.size;
      ghost var t := slots.Contents();
      if count == 0 {
        if !KeyAbsent(t, key, k) {
          var j :| 0 <= j < n && t[j].psl != -1 && key(t[j].data) == k;
          OccupantIn(t, j);
        }
        return n;
      }
      var index: nat := hash(k) % n;
      ghost var h: nat := index;
      var psl := 0;
      while true
        invariant psl <= n && index == Add(h, psl, n)
        invariant IsEquality(cmp) ==>
          forall j :: 0 <= j < n && t[j].psl != -1 && key(t[j].data) == k ==> psl <= Dist(h, j, n)
        decreases n + 1 - psl
      {
        var slot := slots.At(index);
        if slot.psl == -1 || psl > slot.psl {
          if IsEquality(cmp) && !KeyAbsent(t, key, k) {
            var j :| 0 <= j < n && t[j].psl != -1 && key(t[j].data) == k;
            assert Dist(h, index, n) == psl;
            DuplicateAhead(t, j, index, hash, key);
          }
          return n;
        }
        if cmp(k, key(slot.data)) {
          return index;
        }
        index := Next(index, n);
        psl := psl + 1;
        if psl > n {
          // The source's guard against a full circle: no slot's psl reaches `n`,
          // so the probe has already stopped at psl `n` at the latest.
          assert false;
        }
      }
    }

    /**
     * `Rehash(newSize)`: a new slot list of `newSize` default slots into which
     * every element is inserted again, in slot order, by Robin Hood probing;
     * the new list then replaces the old one.
     */
    method Rehash(newSize: nat)
      requires Valid() && count <= newSize
      modifies slots
      ensures Valid() && MaxSize() == newSize && Elements() == old(Elements()) && count == old(count)
      ensures fresh(slots.data)
    {
      var src := slots.Contents();
      var list := Rebuild(src, newSize);
      ghost var u := list.Contents();
      slots.MoveAssign(list);
      assert slots.Contents() == u;
    }

    /** A new list of `newSize` empty slots into which every element of `src` is inserted. */
    method Rebuild(src: seq<Slot<D>>, newSize: nat) returns (list: DynamicArray<Slot<D>>)
      requires DistinctKeys(src, key) && |Occupants(src)| <= newSize
      ensures fresh(list) && fresh(list.data) && list.Valid() && list.size == newSize
      ensures list.defaultValue == Slot(blank, -1)
      ensures Table(list.Contents(), hash, key) && Occupants(list.Contents()) == Occupants(src)
    {
      list := new DynamicArray<Slot<D>>(Slot(blank, -1));
      list.Resize(newSize);
      assert list.Contents() == Repeat(Slot(blank, -1), newSize);
      RehashStart(src, list.Contents(), hash, key);
      Reinsert(list, src);
    }

    /** The loop of `Rehash`: insert the element of every occupied slot of `src`, in slot order. */
    method Reinsert(list: DynamicArray<Slot<D>>, src: seq<Slot<D>>)
      requires list.Valid() && Rehashing(src, 0, list.Contents(), hash, key)
      modifies list.data
      ensures list.Valid() && Table(list.Contents(), hash, key) && Occupants(list.Contents()) == Occupants(src)
    {
      ghost var u := list.Contents();
      var j := 0;
      while j < |src|
        invariant j <= |src| && list.Valid() && list.Contents() == u
        invariant Rehashing(src, j, u, hash, key)
      {
        u := ReinsertOne(list, src, j, u);
        j := j + 1;
      }
      RehashEnd(src, u, hash, key);
    }

    /** One pass of the loop of `Rehash`: place the element of slot `j` of `src`, if it holds one. */
    method ReinsertOne(list: DynamicArray<Slot<D>>, src: seq<Slot<D>>, j: nat, ghost u: seq<Slot<D>>)
      returns (ghost u': seq<Slot<D>>)
      requires list.Valid() && list.Contents() == u && j < |src| && Rehashing(src, j, u, hash, key)
      modifies list.data
      ensures list.Valid() && list.size == old(list.size) && list.Contents() == u'
      ensures Rehashing(src, j + 1, u', hash, key)
    {
      if src[j].psl != -1 {
        RehashRoom(src, j, u, hash, key);
        Place(list, src[j].data);
      }
      RehashNext(src, j, u, list.Contents(), hash, key);
      u' := list.Contents();
    }

    /**
     * The probe loop of `Rehash`: carry the element from its home, swapping it
     * with any occupant displaced less than it, into the first empty slot.
     */
    method Place(list: DynamicArray<Slot<D>>, d: D)
      requires list.Valid() && Table(list.Contents(), hash, key) && KeyAbsent(list.Contents(), key, key(d))
      requires |Occupants(list.Contents())| < list.size
      modifies list.data
      ensures list.Valid() && Table(list.Contents(), hash, key)
      ensures Occupants(list.Contents()) == old(Occupants(list.Contents())) + multiset{d}
    {
      var n := list.size;
      ghost var t0 := list.Contents();
      OccupantsBound(t0);
      ghost var e :| 0 <= e < n && t0[e].psl == -1;
      var c := Slot(d, 0);
      var index: nat := hash(key(d)) % n;
      ghost var i0: nat := index;
      ProbeStart(t0, d, e, hash, key);
      ghost var t := t0;
      while true
        invariant list.Valid() && list.size == n && list.Contents() == t
        invariant Placing(t0, t, c, index, i0, e, d, hash, key)
        decreases Dist(i0, e, n) - Dist(i0, index, n)
      {
        var o := list.At(index);
        if o.psl == -1 {
          PlacingFinish(t0, t, c, index, i0, e, d, hash, key);
          list.Set(index, c);
          break;
        }
        if key(c.data) == key(o.data) {
          // the carried key is absent from the list, so no occupant matches it
          assert false;
        }
        PlacingStep(t0, t, c, index, i0, e, d, hash, key);
        var swapped;
        t, c, swapped := Carry(list, t, c, index);
        index := Next(index, n);
      }
    }

    /**
     * `Emplace(d)`: grow the table when the load factor is reached (to 4
     * slots when empty, else to twice the slots), then probe from the new
     * element's home. An element with the same key met before the first swap
     * stops the probe; otherwise Robin Hood probing places the element and
     * carries the displaced ones on to the first empty slot. The iterator is
     * at the new element or at the one holding its key.
     */
    method Emplace(d: D) returns (r: TableIterator<K, D>, inserted: bool)
      requires Valid()
      modifies this, slots, slots.data
      ensures Valid() && slots == old(slots) && (slots.data == old(slots.data) || fresh(slots.data))
      ensures MaxSize() == if NeedsRehash(old(count), old(MaxSize())) then GrownSize(old(count), old(MaxSize())) else old(MaxSize())
      ensures inserted <==> forall x :: x in old(Elements()) ==> key(x) != key(d)
      ensures Elements() == if inserted then old(Elements()) + multiset{d} else old(Elements())
      ensures r.owner == this && r.index < MaxSize() && Slots()[r.index].psl != -1
      ensures if inserted then Slots()[r.index].data == d else key(Slots()[r.index].data) == key(d)
    {
      Grow();
      r, inserted := ProbeInsert(d);
    }

    /** The probe of `Emplace` on a valid table with an empty slot, counting the element when it is placed. */
    method ProbeInsert(d: D) returns (r: TableIterator<K, D>, inserted: bool)
      requires Valid() && count < MaxSize()
      modifies this, slots.data
      ensures Valid() && slots == old(slots) && MaxSize() == old(MaxSize())
      ensures inserted <==> forall x :: x in old(Elements()) ==> key(x) != key(d)
      ensures Elements() == if inserted then old(Elements()) + multiset{d} else old(Elements())
      ensures r.owner == this && r.index < MaxSize() && Slots()[r.index].psl != -1
      ensures if inserted then Slots()[r.index].data == d else key(Slots()[r.index].data) == key(d)
    {
      ghost var before := Slots();
      var index;
      index, inserted := Probe(slots, d);
      ghost var after := Slots();
      KeyAbsentOccupants(before, key, key(d));
      if inserted {
        count := count + 1;
      }
      assert Slots() == after;
      r := TableIterator(this, index);
    }

    /**
     * The load check at the start of `Emplace`: rehash to `GrownSize` once the
     * load factor is reached, which leaves at least one empty slot.
     */
    method Grow()
      requires Valid()
      modifies slots
      ensures Valid() && Elements() == old(Elements()) && count == old(count) && count < MaxSize()
      ensures slots.data == old(slots.data) || fresh(slots.data)
      ensures MaxSize() == if NeedsRehash(old(count), old(MaxSize())) then GrownSize(old(count), old(MaxSize())) else old(MaxSize())
    {
      OccupantsBound(Slots());
      if NeedsRehash(count, slots.size) {
        Rehash(GrownSize(count, slots.size));
      }
    }

    /** The probe loop of `Emplace`, on a list with an empty slot. */
    method Probe(list: DynamicArray<Slot<D>>, d: D) returns (firstIndex: nat, inserted: bool)
      requires list.Valid() && Table(list.Contents(), hash, key) && |Occupants(list.Contents())| < list.size
      modifies list.data
      ensures list.Valid() && list.size == old(list.size)
      ensures Emplaced(old(list.Contents()), list.Contents(), d, firstIndex, inserted, hash, key)
    {
      var n := list.size;
      ghost var t0 := list.Contents();
      ghost var absent, e, j := ProbeSetup(t0, d, hash, key);
      var c := Slot(d, 0);
      var index: nat := hash(key(d)) % n;
      ghost var i0: nat := index;
      firstIndex, inserted := n, false;
      ghost var t := t0;
      while true
        invariant list.Valid() && list.size == n && list.Contents() == t && index < n
        invariant Emplacing(absent, t0, t, c, index, i0, e, j, d, firstIndex, inserted, hash, key)
        decreases ProbeBudget(absent, index, i0, e, j, n)
      {
        var o := list.At(index);
        if o.psl == -1 {
          EmplacingEmpty(absent, t0, t, c, index, i0, e, j, d, firstIndex, inserted, hash, key);
          list.Set(index, c);
          firstIndex := if firstIndex == n then index else firstIndex;
          inserted := true;
          break;
        }
        if !inserted && key(c.data) == key(o.data) {
          EmplacingFound(absent, t0, t, c, index, i0, e, j, d, firstIndex, inserted, hash, key);
          firstIndex := index;
          break;
        }
        t, c, index, firstIndex, inserted := Advance(list, absent, t0, t, c, index, i0, e, j, d, firstIndex, inserted);
      }
    }

    /**
     * One step of the probe loop of `Emplace` at an occupied slot that does
     * not stop it: swap when the carried element is displaced further,
     * recording the new element's slot at its first swap, and move on.
     */
    method Advance(list: DynamicArray<Slot<D>>, ghost absent: bool, ghost t0: seq<Slot<D>>, ghost t: seq<Slot<D>>,
                   c: Slot<D>, index: nat, ghost i0: nat, ghost e: nat, ghost j: nat, d: D, firstIndex: nat, inserted: bool)
      returns (ghost t': seq<Slot<D>>, c': Slot<D>, index': nat, firstIndex': nat, inserted': bool)
      requires list.Valid() && list.Contents() == t && index < |t| && e < |t| && j < |t|
      requires Emplacing(absent, t0, t, c, index, i0, e, j, d, firstIndex, inserted, hash, key)
      requires t[index].psl != -1 && (inserted || key(c.data) != key(t[index].data))
      modifies list.data
      ensures list.Valid() && list.size == old(list.size) && list.Contents() == t' && index' < |t|
      ensures Emplacing(absent, t0, t', c', index', i0, e, j, d, firstIndex', inserted', hash, key)
      ensures 0 <= ProbeBudget(absent, index', i0, e, j, |t|) < ProbeBudget(absent, index, i0, e, j, |t|)
    {
      var n := list.size;
      EmplacingStep(absent, t0, t, c, index, i0, e, j, d, firstIndex, inserted, hash, key);
      var swapped;
      t', c', swapped := Carry(list, t, c, index);
      firstIndex', inserted' := firstIndex, inserted;
      if swapped {
        firstIndex' := if firstIndex == n then index else firstIndex;
        inserted' := true;
      }
      index' := Next(index, n);
    }

    /**
     * One step of a probe loop at an occupied slot: the carried element takes
     * the slot when it is displaced further than the occupant, and whichever
     * is carried on moves one slot further from its home.
     */
    method Carry(list: DynamicArray<Slot<D>>, ghost t: seq<Slot<D>>, c: Slot<D>, index: nat)
      returns (ghost t': seq<Slot<D>>, c': Slot<D>, swapped: bool)
      requires list.Valid() && list.Contents() == t && index < |t|
      modifies list.data
      ensures list.Valid() && list.size == old(list.size) && list.Contents() == t'
      ensures (t', c') == ProbeStep(t, c, index) && (swapped <==> c.psl > t[index].psl)
    {
      var o := list.At(index);
      t', c', swapped := t, c, false;
      if c.psl > o.psl {
        list.Set(index, c);
        t', c', swapped := t[index := c], o, true;
      }
      c' := Slot(c'.data, c'.psl + 1);
    }

    /**
     * `Erase(first, last)` on slots: empty the `length` slots from `f` on,
     * counting the elements moved out, then shift the following displaced
     * elements back over the gap, starting at slot `l` just after it.
     */
    method EraseSlots(f: nat, l: nat, length: nat)
      requires Valid() && f < MaxSize() && l < MaxSize() && length <= MaxSize()
      requires if length < MaxSize() then length == Dist(f, l, MaxSize()) else l == f
      modifies this, slots.data
      ensures Valid() && slots == old(slots) && MaxSize() == old(MaxSize())
      ensures Elements() + RangeOccupants(old(Slots()), f, length) == old(Elements())
    {
      var removed := CloseGap(slots, f, l, length);
      count := count - removed;
    }

    /** `EraseSlots` on the slot list: both loops, and how many elements they removed. */
    method CloseGap(list: DynamicArray<Slot<D>>, f: nat, l: nat, length: nat) returns (removed: nat)
      requires list.Valid() && Table(list.Contents(), hash, key)
      requires f < list.size && l < list.size && length <= list.size
      requires if length < list.size then length == Dist(f, l, list.size) else l == f
      modifies list.data
      ensures list.Valid() && list.size == old(list.size) && Table(list.Contents(), hash, key)
      ensures Occupants(list.Contents()) + RangeOccupants(old(list.Contents()), f, length) == old(Occupants(list.Contents()))
      ensures removed == |RangeOccupants(old(list.Contents()), f, length)|
    {
      ghost var t0 := list.Contents();
      ghost var a: nat := f;
      if length == 0 {
        a :| 0 <= a < |t0| && t0[a].psl <= 0;
      }
      ghost var t1 := Vacate(t0, f, length);
      VacateOccupants(t0, f, length);
      removed := VacateRange(list, f, length);
      ClosingStart(t0, f, length, a, hash, key);
      ShiftBack(list, t1, f, l, length, a);
    }

    /**
     * The shift loop of `Erase`: while the slot after the gap holds a
     * displaced element, move it back over the gap (no further than its
     * psl) and continue with the gap it leaves.
     */
    method ShiftBack(list: DynamicArray<Slot<D>>, ghost t1: seq<Slot<D>>, f: nat, l: nat, g: nat, ghost a: nat)
      requires list.Valid() && Closing(t1, list.Contents(), f, l, g, a, hash, key)
      modifies list.data
      ensures list.Valid() && list.size == old(list.size)
      ensures Table(list.Contents(), hash, key) && Occupants(list.Contents()) == Occupants(t1)
    {
      var n := list.size;
      var firstIndex, lastIndex, length := f, l, g;
      ghost var t := list.Contents();
      while true
        invariant list.Valid() && list.size == n && list.Contents() == t
        invariant Closing(t1, t, firstIndex, lastIndex, length, a, hash, key)
        decreases ShiftMeasure(t, lastIndex, length, a)
      {
        var o := list.At(lastIndex);
        if o.psl <= 0 {
          ClosingEnd(t1, t, firstIndex, lastIndex, length, a, hash, key);
          break;
        }
        ClosingStep(t1, t, firstIndex, lastIndex, length, a, hash, key);
        t, firstIndex, lastIndex, length := ShiftOne(list, t, lastIndex, length);
      }
    }

    /**
     * One step of the shift loop: the element at `l` moves back by its psl or
     * by the gap `g`, whichever is less, with its psl lowered by as much; the
     * slot it leaves is empty unless it did not move.
     */
    method ShiftOne(list: DynamicArray<Slot<D>>, ghost t: seq<Slot<D>>, l: nat, g: nat)
      returns (ghost t': seq<Slot<D>>, f': nat, l': nat, g': nat)
      requires list.Valid() && list.Contents() == t && l < |t| && t[l].psl > 0 && g <= |t|
      modifies list.data
      ensures list.Valid() && list.size == old(list.size) && list.Contents() == t'
      ensures t' == ShiftStep(t, l, g)
      ensures f' == Next(Back(l, ShiftDistance(t, l, g), |t|), |t|) && l' == Next(l, |t|)
      ensures g' == Dist(f', l', |t|)
    {
      var n := list.size;
      var o := list.At(l);
      var diff := if o.psl > g then g else o.psl;
      var nextIndex := Back(l, diff, n);
      if nextIndex != l {
        list.Set(nextIndex, Slot(o.data, o.psl - diff));
        list.Set(l, Vacated(o));
      } else {
        list.Set(l, Slot(o.data, o.psl - diff));
      }
      t' := list.Contents();
      f' := Next(nextIndex, n);
      l' := Next(l, n);
      g' := Dist(f', l', n);
    }

    /** `Find(k)`: the iterator at the index `FindIndex` returns, `End()` when it finds nothing. */
    method Find(k: K) returns (r: TableIterator<K, D>)
      requires Valid()
      ensures r.owner == this && r.index <= MaxSize()
      ensures r.index < MaxSize() ==> Slots()[r.index].psl != -1 && cmp(k, key(Slots()[r.index].data))
      ensures IsEquality(cmp) ==> (r.index == MaxSize() <==> forall x :: x in Elements() ==> key(x) != k)
    {
      var index := FindIndex(k);
      KeyAbsentOccupants(Slots(), key, k);
      r := TableIterator(this, index);
    }

    /**
     * `Insert(d)`: look the element's key up with the comparer and return the
     * element found, else `Emplace(d)`.
     */
    method Insert(d: D) returns (r: TableIterator<K, D>, inserted: bool)
      requires Valid()
      modifies this, slots, slots.data
      ensures Valid() && slots == old(slots) && (slots.data == old(slots.data) || fresh(slots.data))
      ensures Elements() == if inserted then old(Elements()) + multiset{d} else old(Elements())
      ensures inserted ==> forall x :: x in old(Elements()) ==> key(x) != key(d)
      ensures IsEquality(cmp) ==> (inserted <==> forall x :: x in old(Elements()) ==> key(x) != key(d))
      ensures r.owner == this && r.index < MaxSize() && Slots()[r.index].psl != -1
      ensures if inserted then Slots()[r.index].data == d
              else cmp(key(d), key(Slots()[r.index].data)) || key(Slots()[r.index].data) == key(d)
    {
      r := Find(key(d));
      if r.index != slots.size {
        inserted := false;
        return;
      }
      r, inserted := Emplace(d);
    }

    /** `TryEmplace(k, d)`: return the element the comparer finds for `k`, else `Emplace(d)`. */
    method TryEmplace(k: K, d: D) returns (r: TableIterator<K, D>, inserted: bool)
      requires Valid()
      modifies this, slots, slots.data
      ensures Valid() && slots == old(slots) && (slots.data == old(slots.data) || fresh(slots.data))
      ensures Elements() == if inserted then old(Elements()) + multiset{d} else old(Elements())
      ensures inserted ==> forall x :: x in old(Elements()) ==> key(x) != key(d)
      ensures IsEquality(cmp) ==>
        (inserted <==> (forall x :: x in old(Elements()) ==> key(x) != k) && (forall x :: x in old(Elements()) ==> key(x) != key(d)))
      ensures r.owner == this && r.index < MaxSize() && Slots()[r.index].psl != -1
      ensures if inserted then Slots()[r.index].data == d
              else cmp(k, key(Slots()[r.index].data)) || key(Slots()[r.index].data) == key(d)
    {
      r := Find(k);
      if r.index != slots.size {
        inserted := false;
        return;
      }
      r, inserted := Emplace(d);
    }

    /**
     * `Erase(first, last)`: iterators of another table change nothing and
     * give `End()`; equal iterators change nothing and give `last`; otherwise
     * the elements of the slots from `first` up to `last` (round the end when
     * `last` lies before `first`) are removed, and the result is the first
     * occupied slot from `first`'s index on. The length is the corrected one
     * (`EraseLength`), which differs from the source's only for a range
     * covering the whole table.
     */
    method Erase(first: TableIterator<K, D>, last: TableIterator<K, D>) returns (r: TableIterator<K, D>)
      requires Valid()
      requires first.owner == this && last.owner == this ==> first.index <= MaxSize() && last.index <= MaxSize()
      modifies this, slots.data
      ensures Valid() && slots == old(slots) && MaxSize() == old(MaxSize())
      ensures first.owner != this || last.owner != this ==> Slots() == old(Slots()) && r == TableIterator(this, MaxSize())
      ensures first.owner == this && last.owner == this && first.index == last.index ==> Slots() == old(Slots()) && r == last
      ensures first.owner == this && last.owner == this && first.index != last.index ==>
        Elements() + RangeOccupants(old(Slots()), first.index % MaxSize(), EraseLength(first.index, last.index, MaxSize()))
          == old(Elements())
        && r == TableIterator(this, UpperIndex(Slots(), first.index))
    {
      if first.owner != this || last.owner != this {
        return TableIterator(this, slots.size);
      }
      if first.index == last.index {
        return TableIterator(this, last.index);
      }
      var n := slots.size;
      EraseBounds(first.index, last.index, n);
      EraseSlots(first.index % n, last.index % n, EraseLength(first.index, last.index, n));
      var index := FindUpperIndex(first.index);
      r := TableIterator(this, index);
    }

    /** `Erase(pos)`: erase from `pos` up to the next occupied slot, which removes the element at `pos`. */
    method EraseAt(pos: TableIterator<K, D>) returns (r: TableIterator<K, D>)
      requires Valid() && (pos.owner == this ==> pos.index < MaxSize())
      modifies this, slots.data
      ensures Valid() && slots == old(slots) && MaxSize() == old(MaxSize())
      ensures pos.owner != this ==> Slots() == old(Slots()) && r == TableIterator(this, MaxSize())
      ensures pos.owner == this ==>
        Elements() + OccupantOf(old(Slots())[pos.index]) == old(Elements())
        && r == TableIterator(this, UpperIndex(Slots(), pos.index))
    {
      if pos.owner != this {
        return TableIterator(this, slots.size);
      }
      ghost var t, e := Slots(), Elements();
      var n := slots.size;
      var next := FindUpperIndex(pos.index + 1);
      EraseAtRange(t, pos.index, next);
      r := Erase(pos, TableIterator(this, next));
      assert Elements() + RangeOccupants(t, pos.index % n, EraseLength(pos.index, next, n)) == e;
    }

    /**
     * `Erase(k)`: erase the element `Find(k)` returns, if any. At most one
     * element goes, one the comparer matches; with an equality comparer no
     * element with key `k` remains. The result is the end when nothing
     * matched, and otherwise what `Erase(it)` returns for the vacated slot:
     * the first occupied slot from it on after the shift.
     */
    method EraseKey(k: K) returns (r: TableIterator<K, D>)
      requires Valid()
      modifies this, slots.data
      ensures Valid() && slots == old(slots) && MaxSize() == old(MaxSize())
      ensures Elements() <= old(Elements()) && |old(Elements())| <= |Elements()| + 1
      ensures forall x :: x in old(Elements()) - Elements() ==> cmp(k, key(x))
      ensures IsEquality(cmp) ==> forall x :: x in Elements() ==> key(x) != k
      ensures r.owner == this && r.index <= MaxSize()
      ensures (Slots() == old(Slots()) && r.index == MaxSize())
        || (exists i :: 0 <= i < MaxSize() && old(Slots())[i].psl != -1 && cmp(k, key(old(Slots())[i].data))
              && Elements() + multiset{old(Slots())[i].data} == old(Elements())
              && r.index == UpperIndex(Slots(), i))
    {
      var it := Find(k);
      if it.index == slots.size {
        return it;
      }
      ghost var t := Slots();
      OnlyOneWithKey(t, it.index, key);
      r := EraseAt(it);
      MultisetCancel(Elements(), Occupants(t[it.index := Vacated(t[it.index])]), t[it.index].data);
      assert Elements() + multiset{t[it.index].data} == old(Elements());
    }

    /**
     * A write through the reference that `*` on an iterator or a map's
     * `operator[]` returns: the element at `index` becomes `d`, which must
     * keep its key. Only that slot changes.
     */
    method Assign(index: nat, d: D)
      requires Valid() && index < MaxSize() && Slots()[index].psl != -1 && key(d) == key(Slots()[index].data)
      modifies slots.data
      ensures Valid() && Slots() == old(Slots())[index := Slot(d, old(Slots())[index].psl)]
      ensures Elements() + multiset{old(Slots())[index].data} == old(Elements()) + multiset{d}
    {
      ghost var t := Slots();
      var o := slots.At(index);
      ReplaceKeeps(t, index, d, hash, key);
      slots.Set(index, Slot(d, o.psl));
      assert Slots() == t[index := Slot(d, t[index].psl)];
    }

    /** `Clear()`: no slots and no elements. */
    method Clear()
      requires Valid()
      modifies this, slots
      ensures Valid() && slots == old(slots) && Elements() == multiset{} && MaxSize() == 0
    {
      slots.Clear();
      count := 0;
    }

    /**
     * `Reserve(n)` as written: the slot list is resized to `n` slots without
     * moving any element, which leaves elements off their home (growing) or
     * cuts them off (shrinking); `count` is not updated.
     */
    method ReserveAsWritten(newCapacity: nat)
      requires Valid()
      modifies slots, slots.data
      ensures slots.Valid() && count == old(count)
      ensures Slots() == Resized(old(Slots()), newCapacity, Slot(blank, -1))
    {
      slots.Resize(newCapacity);
    }

    /** `Reserve(n)` corrected: grow to `n` slots by rehashing; never shrink. */
    method Reserve(newCapacity: nat)
      requires Valid()
      modifies slots
      ensures Valid() && Elements() == old(Elements()) && count == old(count)
      ensures MaxSize() == if newCapacity > old(MaxSize()) then newCapacity else old(MaxSize())
    {
      OccupantsBound(Slots());
      if newCapacity > slots.size {
        Rehash(newCapacity);
      }
    }

    /** The copy constructor: a table with the same slots, over a slot list of its own. */
    constructor Copy(other: HashTable<K, D>)
      requires other.Valid()
      ensures Valid() && Slots() == other.Slots() && fresh(slots) && fresh(slots.data)
      ensures hash == other.hash && key == other.key && cmp == other.cmp && blank == other.blank
    {
      hash, key, cmp, blank := other.hash, other.key, other.cmp, other.blank;
      slots := new DynamicArray<Slot<D>>.Copy(other.slots);
      count := other.count;
    }

    /** The move constructor: this table takes over the other's slot buffer; the other is left empty. */
    constructor Move(other: HashTable<K, D>)
      requires other.Valid()
      modifies other, other.slots
      ensures Valid() && Slots() == old(other.Slots()) && fresh(slots) && slots.data == old(other.slots.data)
      ensures hash == other.hash && key == other.key && cmp == other.cmp && blank == other.blank
      ensures other.Valid() && other.slots == old(other.slots) && other.Elements() == multiset{} && other.MaxSize() == 0
    {
      hash, key, cmp, blank := other.hash, other.key, other.cmp, other.blank;
      slots := new DynamicArray<Slot<D>>.Move(other.slots);
      count := other.count;
      new;
      other.count := 0;
    }

    /** The initializer-list constructor: `Emplace` each element in turn into an empty table. */
    constructor FromList(init: seq<D>, hash: K -> nat, key: D -> K, cmp: (K, K) -> bool, blank: D)
      ensures Valid() && Elements() == EmplaceAll(multiset{}, init, key) && fresh(slots) && fresh(slots.data)
      ensures this.hash == hash && this.key == key && this.cmp == cmp && this.blank == blank
    {
      this.hash := hash;
      this.key := key;
      this.cmp := cmp;
      this.blank := blank;
      slots := new DynamicArray<Slot<D>>(Slot(blank, -1));
      count := 0;
      new;
      EmplaceEach(init);
    }

    /** The loop of the initializer-list constructor: `Emplace` each of `init` in order. */
    method EmplaceEach(init: seq<D>)
      requires Valid()
      modifies this, slots, slots.data
      ensures Valid() && slots == old(slots) && (slots.data == old(slots.data) || fresh(slots.data))
      ensures Elements() == EmplaceAll(old(Elements()), init, key)
    {
      ghost var states := EmplaceStates(Elements(), init, key);
      var i := 0;
      while i < |init|
        invariant i <= |init| && Valid() && slots == old(slots) && (slots.data == old(slots.data) || fresh(slots.data))
        invariant Elements() == states[i]
      {
        EmplaceNext(init[i]);
        i := i + 1;
      }
    }

    /** One turn of the initializer-list loop: `Emplace(d)`, its iterator dropped. */
    method EmplaceNext(d: D)
      requires Valid()
      modifies this, slots, slots.data
      ensures Valid() && slots == old(slots) && (slots.data == old(slots.data) || fresh(slots.data))
      ensures Elements() == EmplaceOne(old(Elements()), d, key)
    {
      var r, inserted := Emplace(d);
    }

    /**
     * Copy assignment: unless assigned to itself, the table takes a copy of
     * the other's slots (the two tables own distinct slot lists).
     */
    method CopyAssign(other: HashTable<K, D>)
      requires Valid() && other.Valid() && other.hash == hash && other.key == key
      requires other != this ==> other.slots != slots && other.slots.data != slots.data
      modifies this, slots, slots.data
      ensures Valid() && slots == old(slots) && Slots() == old(other.Slots())
    {
      if other != this {
        slots.CopyAssign(other.slots);
        count := other.count;
      }
    }

    /** Move assignment: unless assigned to itself, the table takes over the other's slots, leaving it empty. */
    method MoveAssign(other: HashTable<K, D>)
      requires Valid() && other.Valid() && other.hash == hash && other.key == key && other.blank == blank
      requires other != this ==> other.slots != slots
      modifies this, slots, other, other.slots
      ensures Valid() && slots == old(slots) && Slots() == old(other.Slots())
      ensures other != this ==> other.Valid() && other.Elements() == multiset{} && other.MaxSize() == 0
    {
      if other != this {
        ghost var t := other.Slots();
        assert Table(t, hash, key) && other.count == |Occupants(t)|;
        slots.MoveAssign(other.slots);
        count := other.count;
        other.count := 0;
        assert Slots() == t && other.Slots() == [];
      }
    }

    /** `FindUpperIndex(start)`: scan up from `start` to an occupied slot or the end. */
    method FindUpperIndex(start: nat) returns (r: nat)
      requires Valid() && start <= MaxSize()
      ensures r == UpperIndex(Slots(), start)
    {
      var endIndex := slots.size;
      var index: nat := start;
      while true
        invariant start <= index <= endIndex && UpperIndex(Slots(), index) == UpperIndex(Slots(), start)
        decreases endIndex - index
      {
        if index == endIndex {
          break;
        }
        if slots.At(index).psl != -1 {
          break;
        }
        index := index + 1;
      }
      r := index;
    }

    /** `FindLowerIndex(start)`: scan down from `start` to an occupied slot, stopping at 0. */
    method FindLowerIndex(start: nat) returns (r: nat)
      requires Valid() && start <= MaxSize()
      ensures r == LowerIndex(Slots(), start)
    {
      var endIndex := slots.size;
      var index: nat := start;
      while true
        invariant index <= start && LowerIndex(Slots(), index) == LowerIndex(Slots(), start)
        decreases index
      {
        if index == 0 {
          break;
        }
        if index != endIndex && slots.At(index).psl != -1 {
          break;
        }
        index := index - 1;
      }
      r := index;
    }

    /** The corrected search for reverse iterators: scan down from `start` to a position whose slot below is occupied. */
    method FindReverseIndex(start: nat) returns (r: nat)
      requires Valid() && start <= MaxSize()
      ensures r == ReverseIndex(Slots(), start)
    {
      var index: nat := start;
      while true
        invariant index <= start && ReverseIndex(Slots(), index) == ReverseIndex(Slots(), start)
        decreases index
      {
        if index == 0 {
          break;
        }
        if slots.At(index - 1).psl != -1 {
          break;
        }
        index := index - 1;
      }
      r := index;
    }

    /** `Begin()`: the first occupied slot; it is `End()` exactly when the table is empty. */
    method Begin() returns (r: TableIterator<K, D>)
      requires Valid()
      ensures r.owner == this && r.index == UpperIndex(Slots(), 0)
      ensures r.index == MaxSize() <==> Elements() == multiset{}
    {
      var index := FindUpperIndex(0);
      ForwardWalkComplete(Slots());
      r := TableIterator(this, index);
    }

    /** `End()`: the index one past the last slot. */
    function End(): (r: TableIterator<K, D>)
      reads this, slots, slots.data
      requires slots.Valid()
      ensures r.owner == this && r.index == MaxSize()
    {
      TableIterator(this, slots.size)
    }

    /** `rBegin()` with the corrected search: the position after the last occupied slot; `rEnd()` exactly when empty. */
    method RBegin() returns (r: ReverseTableIterator<K, D>)
      requires Valid()
      ensures r.owner == this && r.index == ReverseIndex(Slots(), MaxSize())
      ensures r.index == 0 <==> Elements() == multiset{}
    {
      var index := FindReverseIndex(slots.size);
      ForwardWalkComplete(Slots());
      ReverseWalkReverses(Slots());
      r := ReverseTableIterator(this, index);
    }

    /** `rEnd()`: position 0. */
    function REnd(): (r: ReverseTableIterator<K, D>)
      ensures r.owner == this && r.index == 0
    {
      ReverseTableIterator(this, 0)
    }
  }

  /** The first loop of `Erase`: move the element out of each of the `length` slots from `f` on. */
  method VacateRange<D(!new)>(list: DynamicArray<Slot<D>>, f: nat, length: nat) returns (removed: nat)
    requires list.Valid() && f < list.size && length <= list.size
    modifies list.data
    ensures list.Valid() && list.size == old(list.size)
    ensures list.Contents() == Vacate(old(list.Contents()), f, length)
    ensures removed == |RangeOccupants(old(list.Contents()), f, length)|
  {
    var n := list.size;
    ghost var t0 := list.Contents();
    ghost var states, counts := VacateStates(t0, f, length);
    removed := 0;
    var offset := 0;
    while offset < length
      invariant offset <= length && list.Valid() && list.size == n
      invariant list.Contents() == states[offset] && removed == counts[offset]
    {
      var index := Add(f, offset, n);
      var moved := VacateOne(list, index);
      if moved {
        removed := removed + 1;
      }
      offset := offset + 1;
    }
  }

  /** One turn of the erase loop: move the element out of slot `index`, if it holds one. */
  method VacateOne<D(!new)>(list: DynamicArray<Slot<D>>, index: nat) returns (moved: bool)
    requires list.Valid() && index < list.size
    modifies list.data
    ensures list.Valid() && list.size == old(list.size)
    ensures moved <==> old(list.Contents())[index].psl != -1
    ensures list.Contents() == old(list.Contents())[index := Vacated(old(list.Contents())[index])]
  {
    var o := list.At(index);
    moved := o.psl != -1;
    if moved {
      list.Set(index, Vacated(o));
    } else {
      assert list.Contents()[index := Vacated(o)] == list.Contents();
    }
  }

  /** `++it`: the next occupied slot after the iterator's, or the end. */
  method Increment<K(==,!new), D(==,!new)>(it: TableIterator<K, D>) returns (r: TableIterator<K, D>)
    requires it.owner.Valid() && it.index < it.owner.MaxSize()
    ensures r.owner == it.owner && r.index == UpperIndex(it.owner.Slots(), it.index + 1)
  {
    var index := it.owner.FindUpperIndex(it.index + 1);
    r := TableIterator(it.owner, index);
  }

  /** `--it`: the last occupied slot before the iterator's, or slot 0. */
  method Decrement<K(==,!new), D(==,!new)>(it: TableIterator<K, D>) returns (r: TableIterator<K, D>)
    requires it.owner.Valid() && 0 < it.index <= it.owner.MaxSize()
    ensures r.owner == it.owner && r.index == LowerIndex(it.owner.Slots(), it.index - 1)
  {
    var index := it.owner.FindLowerIndex(it.index - 1);
    r := TableIterator(it.owner, index);
  }

  /** `*it`: the data in the iterator's slot, an element of the table when the slot is occupied. */
  function Deref<K(==,!new), D(==,!new)>(it: TableIterator<K, D>): (r: D)
    reads it.owner, it.owner.slots, it.owner.slots.data
    requires it.owner.Valid() && it.index < it.owner.MaxSize()
    ensures it.owner.Slots()[it.index].psl != -1 ==> r in it.owner.Elements()
  {
    var t := it.owner.Slots();
    if t[it.index].psl != -1 then OccupantIn(t, it.index); t[it.index].data else t[it.index].data
  }

  /** `++rit` with the corrected search: the position after the next occupied slot below. */
  method RIncrement<K(==,!new), D(==,!new)>(it: ReverseTableIterator<K, D>) returns (r: ReverseTableIterator<K, D>)
    requires it.owner.Valid() && 0 < it.index <= it.owner.MaxSize()
    ensures r.owner == it.owner && r.index == ReverseIndex(it.owner.Slots(), it.index - 1)
  {
    var index := it.owner.FindReverseIndex(it.index - 1);
    r := ReverseTableIterator(it.owner, index);
  }

  /** `--rit`, corrected: the position after the first occupied slot at or above the current position. */
  method RDecrement<K(==,!new), D(==,!new)>(it: ReverseTableIterator<K, D>) returns (r: ReverseTableIterator<K, D>)
    requires it.owner.Valid() && it.index <= it.owner.MaxSize()
    requires UpperIndex(it.owner.Slots(), it.index) < it.owner.MaxSize()
    ensures r.owner == it.owner && r.index == UpperIndex(it.owner.Slots(), it.index) + 1
    ensures 0 < r.index <= it.owner.MaxSize() && it.owner.Slots()[r.index - 1].psl != -1
  {
    var index := it.owner.FindUpperIndex(it.index);
    r := ReverseTableIterator(it.owner, index + 1);
  }

  /** `*rit`: the data in the slot below the position, an element of the table when that slot is occupied. */
  function RDeref<K(==,!new), D(==,!new)>(it: ReverseTableIterator<K, D>): (r: D)
    reads it.owner, it.owner.slots, it.owner.slots.data
    requires it.owner.Valid() && 0 < it.index <= it.owner.MaxSize()
    ensures it.owner.Slots()[it.index - 1].psl != -1 ==> r in it.owner.Elements()
  {
    var t := it.owner.Slots();
    if t[it.index - 1].psl != -1 then OccupantIn(t, it.index - 1); t[it.index - 1].data else t[it.index - 1].data
  }

  function ConstantHash(k: int): nat
  {
    5
  }

  function Identity(d: int): int
  {
    d
  }

  /**
   * `Reserve` as written breaks the table: one element with hash 5 at its
   * home slot 1 of 4 is no longer at its home once the list grows to 8
   * slots, and shrinking to 1 slot loses it.
   */
  lemma ReserveAsWrittenBreaksTable()
    ensures var e := Slot(0, -1);
      var t := [e, Slot(7, 0), e, e];
      Table(t, ConstantHash, Identity)
      && !PslCorrect(Resized(t, 8, e), ConstantHash, Identity)
      && Occupants(Resized(t, 1, e)) == multiset{} && Occupants(t) == multiset{7}
  {
    var e := Slot(0, -1);
    var t := [e, Slot(7, 0), e, e];
    OneElementTable(t);
    GrownOffHome(t, e);
    assert Resized(t, 1, e) == [e];
    assert t[..3][..2][..1] == [e];
    assert t[..3][..2] == [e, Slot(7, 0)];
  }

  /** Four slots holding 7 at its home slot 1 (hash 5) form a table. */
  lemma OneElementTable(t: seq<Slot<int>>)
    requires t == [Slot(0, -1), Slot(7, 0), Slot(0, -1), Slot(0, -1)]
    ensures Table(t, ConstantHash, Identity)
  {
    assert Home(ConstantHash, Identity, 7, 4) == 1;
    assert t[1].psl == Dist(1, 1, 4);
  }

  /** Grown to 8 slots, the element 7 still sits in slot 1 while its home is now slot 5. */
  lemma GrownOffHome(t: seq<Slot<int>>, e: Slot<int>)
    requires |t| == 4 && t[1] == Slot(7, 0)
    ensures !PslCorrect(Resized(t, 8, e), ConstantHash, Identity)
  {
    assert Resized(t, 8, e)[1] == Slot(7, 0);
    assert Home(ConstantHash, Identity, 7, 8) == 5;
  }
}
