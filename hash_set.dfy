/**
 * `wtr::HashSet<Value>`: a hash table whose elements are their own keys
 * (`DefaultSelector`). It adds no operation of its own; what it adds is
 * that, with the element as key, the table holds each value at most once,
 * and a write through an iterator (`Assign`, which must keep the key)
 * cannot change an element, which is why its iterator is a const iterator.
 */
module HashSets {
  import opened RobinHood
  import opened HashTables

  /** `DefaultSelector`: the element is its own key. */
  function DefaultSelector<T>(x: T): T
  {
    x
  }

  /** The table's key selector is the identity. */
  ghost predicate SelfKeyed<T(!new)>(key: T -> T)
  {
    forall x :: key(x) == x
  }

  /** Distinct keys mean each element is held once: a set's elements form a set. */
  lemma {:induction false} HeldOnce<K, D>(t: seq<Slot<D>>, key: D -> K)
    requires DistinctKeys(t, key)
    ensures forall x :: Occupants(t)[x] <= 1
  {
    if t != [] {
      var m := |t| - 1;
      assert DistinctKeys(t[..m], key) by {
        forall i, j | 0 <= i < m && 0 <= j < m
          ensures t[..m][i] == t[i] && t[..m][j] == t[j]
        {
        }
      }
      HeldOnce(t[..m], key);
      if t[m].psl != -1 {
        assert KeyAbsent(t[..m], key, key(t[m].data));
        KeyAbsentOccupants(t[..m], key, key(t[m].data));
      }
    }
  }

  /** In a set, a write that keeps the element's key writes the element it replaces. */
  lemma SameKeySameValue<T(!new)>(key: T -> T, x: T, d: T)
    requires SelfKeyed(key) && key(d) == key(x)
    ensures d == x
  {
    assert key(d) == d && key(x) == x;
  }

  /** Emplacing each of `s` in turn into an empty set holds every value of `s` exactly once, and nothing else. */
  lemma {:induction false} EmplaceAllSet<T(!new)>(s: seq<T>, key: T -> T)
    requires SelfKeyed(key)
    ensures forall x :: EmplaceAll(multiset{}, s, key)[x] == if x in s then 1 else 0
  {
    if s != [] {
      var init, d := s[..|s| - 1], s[|s| - 1];
      var m := EmplaceAll(multiset{}, init, key);
      EmplaceAllSet(init, key);
      assert s == init + [d];
      if forall x :: x in m ==> key(x) != key(d) {
        assert d !in m;
      } else {
        var x :| x in m && key(x) == key(d);
        assert x == d;
      }
    }
  }

  /** `HashSet<int> set{ 3, 1, 2, 3, 4, 2, 2, 4 }` holds 1, 2, 3 and 4, once each. */
  lemma InitListDistinct(key: int -> int)
    requires SelfKeyed(key)
    ensures EmplaceAll(multiset{}, [3, 1, 2, 3, 4, 2, 2, 4], key) == multiset{1, 2, 3, 4}
  {
    var s := [3, 1, 2, 3, 4, 2, 2, 4];
    EmplaceAllSet(s, key);
    forall x
      ensures EmplaceAll(multiset{}, s, key)[x] == multiset{1, 2, 3, 4}[x]
    {
      assert x in s <==> x in {1, 2, 3, 4};
    }
  }

  /**
   * `Emplace(1, 1)`, `Emplace(2, 2)`, `Emplace(1, 1)`, `Insert({3, 3})` on a
   * set of pairs: the duplicate is ignored and three elements remain.
   */
  lemma DuplicateIgnored(key: ((int, int)) -> (int, int))
    requires SelfKeyed(key)
    ensures |EmplaceAll(multiset{}, [(1, 1), (2, 2), (1, 1), (3, 3)], key)| == 3
  {
    var s := [(1, 1), (2, 2), (1, 1), (3, 3)];
    EmplaceAllSet(s, key);
    var e := EmplaceAll(multiset{}, s, key);
    forall x
      ensures e[x] == multiset{(1, 1), (2, 2), (3, 3)}[x]
    {
      assert x in s <==> x in {(1, 1), (2, 2), (3, 3)};
    }
    assert e == multiset{(1, 1), (2, 2), (3, 3)};
  }

  /** The `==` comparer on `int`. */
  function Equal(a: int, b: int): bool
  {
    a == b
  }

  /** `Insert(x)` of a value the set does not hold: it is added. */
  method InsertNew(s: HashTable<int, int>, x: int)
    requires s.Valid() && SelfKeyed(s.key) && IsEquality(s.cmp) && x !in s.Elements()
    modifies s, s.slots, s.slots.data
    ensures s.Valid() && s.slots == old(s.slots) && (s.slots.data == old(s.slots.data) || fresh(s.slots.data))
    ensures s.Elements() == old(s.Elements()) + multiset{x}
  {
    var r, inserted := s.Insert(x);
  }

  /** `Insert(x)` of a value the set holds: nothing is added and `second` is false. */
  method InsertPresent(s: HashTable<int, int>, x: int) returns (inserted: bool)
    requires s.Valid() && SelfKeyed(s.key) && IsEquality(s.cmp) && x in s.Elements()
    modifies s, s.slots, s.slots.data
    ensures s.Valid() && s.Elements() == old(s.Elements()) && !inserted
  {
    var r;
    r, inserted := s.Insert(x);
  }

  /** `HashSet<int> set{ 3, 1, 2, 3, 4, 2, 2, 4 }`. */
  method DemoSet(hash: int -> nat) returns (s: HashTable<int, int>)
    ensures fresh(s) && fresh(s.slots) && fresh(s.slots.data)
    ensures s.Valid() && SelfKeyed(s.key) && IsEquality(s.cmp) && s.Elements() == multiset{1, 2, 3, 4}
  {
    s := new HashTable.FromList([3, 1, 2, 3, 4, 2, 2, 4], hash, DefaultSelector, Equal, 0);
    InitListDistinct(s.key);
  }

  /**
   * The demo's set: built from `{3, 1, 2, 3, 4, 2, 2, 4}`, then `Insert(10)`,
   * `Insert(15)` and `Insert(10)` again, whatever the hash function. The
   * second `Insert(10)` reports no insertion and the set holds six values.
   */
  method InsertDemo(hash: int -> nat) returns (s: HashTable<int, int>, inserted: bool)
    ensures s.Valid() && !inserted && s.Size() == 6
    ensures s.Elements() == multiset{1, 2, 3, 4} + multiset{10} + multiset{15}
  {
    s := DemoSet(hash);
    InsertNew(s, 10);
    assert 15 !in s.Elements();
    InsertNew(s, 15);
    assert 10 in s.Elements();
    inserted := InsertPresent(s, 10);
  }
}
