/**
 * `wtr::HashMap<Key, Value>`: a hash table of `(key, value)` pairs whose key
 * is the pair's first component (`PairSelector`), with `operator[]`, which
 * finds or inserts an entry and gives access to its value, and `At`, which
 * must find one. The table operations are those of `HashTables.HashTable`.
 */
module HashMaps {
  import opened RobinHood
  import opened DynamicArrays
  import opened HashTables

  /** `PairSelector`: the key of an entry is the pair's first component. */
  function PairSelector<K, V>(p: (K, V)): K
  {
    p.0
  }

  /** The table's key selector is `PairSelector`. */
  ghost predicate PairKeyed<K(!new), V(!new)>(key: ((K, V)) -> K)
  {
    forall p :: key(p) == p.0
  }

  /** No entry has key `k`. */
  ghost predicate Absent<K, V>(e: multiset<(K, V)>, k: K)
  {
    forall x :: x in e ==> x.0 != k
  }

  /** A table of pairs keyed by their first components holds at most one entry per key. */
  lemma EntryPerKey<K(!new), V(!new)>(t: seq<Slot<(K, V)>>, key: ((K, V)) -> K, x: (K, V), y: (K, V))
    requires DistinctKeys(t, key) && PairKeyed(key)
    requires x in Occupants(t) && y in Occupants(t) && x.0 == y.0
    ensures x == y
  {
    OccupantsMember(t, x);
    OccupantsMember(t, y);
    var i :| 0 <= i < |t| && t[i].psl != -1 && t[i].data == x;
    var j :| 0 <= j < |t| && t[j].psl != -1 && t[j].data == y;
    assert key(t[i].data) == key(t[j].data);
  }

  /**
   * `operator[](key)`: `Find(key)`; when that gives `End()`, emplace
   * `(key, Value{})`. The result is the slot whose value the returned
   * reference refers to. With an equality comparer, the entry is the one
   * with key `key`, new exactly when there was none.
   */
  method Subscript<K(==,!new), V(==,!new)>(m: HashTable<K, (K, V)>, k: K, blank: V) returns (r: TableIterator<K, (K, V)>)
    requires m.Valid() && PairKeyed(m.key)
    modifies m, m.slots, m.slots.data
    ensures m.Valid() && m.slots == old(m.slots) && (m.slots.data == old(m.slots.data) || fresh(m.slots.data))
    ensures r.owner == m && r.index < m.MaxSize() && m.Slots()[r.index].psl != -1
    ensures m.Slots()[r.index].data.0 == k || m.cmp(k, m.Slots()[r.index].data.0)
    ensures m.Elements() == old(m.Elements()) || m.Elements() == old(m.Elements()) + multiset{(k, blank)}
    ensures IsEquality(m.cmp) ==> m.Slots()[r.index].data.0 == k
    ensures IsEquality(m.cmp) && Absent(old(m.Elements()), k) ==>
      m.Elements() == old(m.Elements()) + multiset{(k, blank)} && m.Slots()[r.index].data == (k, blank)
    ensures IsEquality(m.cmp) && !Absent(old(m.Elements()), k) ==>
      m.Elements() == old(m.Elements()) && m.Slots()[r.index].data in old(m.Elements())
  {
    r := m.Find(k);
    if r.index == m.slots.size {
      var inserted;
      r, inserted := m.Emplace((k, blank));
    } else {
      OccupantIn(m.Slots(), r.index);
    }
  }

  /**
   * `map[key] = value`: `operator[]`, then a write of `value` to the found
   * or new entry's `second`. With an equality comparer, the entry for `key`
   * afterwards is `(key, value)`, every other entry is unchanged, and the
   * size grows by one exactly when the key was new.
   */
  method Store<K(==,!new), V(==,!new)>(m: HashTable<K, (K, V)>, k: K, blank: V, v: V)
    requires m.Valid() && PairKeyed(m.key)
    modifies m, m.slots, m.slots.data
    ensures m.Valid() && m.slots == old(m.slots) && (m.slots.data == old(m.slots.data) || fresh(m.slots.data))
    ensures IsEquality(m.cmp) && Absent(old(m.Elements()), k) ==> m.Elements() == old(m.Elements()) + multiset{(k, v)}
    ensures IsEquality(m.cmp) ==> forall x :: x in old(m.Elements()) && x.0 == k ==>
      m.Elements() + multiset{x} == old(m.Elements()) + multiset{(k, v)}
  {
    ghost var t0 := m.Slots();
    var r := Subscript(m, k, blank);
    ghost var e1 := m.Elements();
    var s := m.slots.At(r.index);
    m.Assign(r.index, (s.data.0, v));
    if IsEquality(m.cmp) {
      StoreEntries(t0, e1, m.Elements(), s.data, k, blank, v, m.key);
    }
  }

  /**
   * The entries after `map[key] = value`, from those before (`Occupants(t0)`),
   * those after `operator[]` (`e1`) and the write of `value` over the entry
   * `d` that `operator[]` found or added.
   */
  lemma StoreEntries<K(!new), V(!new)>(t0: seq<Slot<(K, V)>>, e1: multiset<(K, V)>, e2: multiset<(K, V)>,
                                       d: (K, V), k: K, blank: V, v: V, key: ((K, V)) -> K)
    requires DistinctKeys(t0, key) && PairKeyed(key) && d.0 == k
    requires e2 + multiset{d} == e1 + multiset{(k, v)}
    requires Absent(Occupants(t0), k) ==> e1 == Occupants(t0) + multiset{(k, blank)} && d == (k, blank)
    requires !Absent(Occupants(t0), k) ==> e1 == Occupants(t0) && d in Occupants(t0)
    ensures Absent(Occupants(t0), k) ==> e2 == Occupants(t0) + multiset{(k, v)}
    ensures forall x :: x in Occupants(t0) && x.0 == k ==> e2 + multiset{x} == Occupants(t0) + multiset{(k, v)}
  {
    var e := Occupants(t0);
    if Absent(e, k) {
      assert e1 == e + multiset{d};
      MultisetCancel(e2, e + multiset{(k, v)}, d);
    } else {
      forall x | x in e && x.0 == k
        ensures e2 + multiset{x} == e + multiset{(k, v)}
      {
        EntryPerKey(t0, key, x, d);
      }
    }
  }

  /** `At(key)`: the value of the entry for `key`, which must be present. */
  method At<K(==,!new), V(==,!new)>(m: HashTable<K, (K, V)>, k: K) returns (v: V)
    requires m.Valid() && PairKeyed(m.key) && IsEquality(m.cmp) && !Absent(m.Elements(), k)
    ensures (k, v) in m.Elements()
  {
    var r := m.Find(k);
    var s := m.slots.At(r.index);
    OccupantIn(m.Slots(), r.index);
    v := s.data.1;
  }

  /** The entries `(i, 10 * i)` for `i` below `n`. */
  ghost function Tens(n: nat): multiset<(int, int)>
  {
    if n == 0 then multiset{} else Tens(n - 1) + multiset{(n - 1, (n - 1) * 10)}
  }

  /** `Tens(n)` has `n` entries. */
  lemma {:induction false} TensSize(n: nat)
    ensures |Tens(n)| == n
  {
    if n > 0 {
      TensSize(n - 1);
    }
  }

  /** Every entry of `Tens(n)` has a key below `n`, and every key below `n` has its entry. */
  lemma {:induction false} TensEntries(n: nat)
    ensures forall x :: x in Tens(n) ==> 0 <= x.0 < n
    ensures forall i :: 0 <= i < n ==> (i, i * 10) in Tens(n)
  {
    if n > 0 {
      TensEntries(n - 1);
    }
  }

  /** A new map with `int` keys: no entries, `PairSelector` keys and the `==` comparer. */
  method NewMap<V(==,!new)>(hash: int -> nat, blank: V) returns (m: HashTable<int, (int, V)>)
    ensures fresh(m) && fresh(m.slots) && fresh(m.slots.data)
    ensures m.Valid() && PairKeyed(m.key) && IsEquality(m.cmp) && m.Elements() == multiset{}
  {
    m := new HashTable(hash, PairSelector, (a: int, b: int) => a == b, (0, blank));
  }

  /**
   * `map[i] = i * 10` for `i` from 0 to 99 on a new map, whatever the hash
   * function: 100 entries, each key with its value, through every rehash.
   */
  method FillHundred(hash: int -> nat) returns (m: HashTable<int, (int, int)>)
    ensures m.Valid() && m.Size() == 100
    ensures forall i :: 0 <= i < 100 ==> (i, i * 10) in m.Elements()
  {
    m := NewMap(hash, 0);
    var i := 0;
    while i < 100
      invariant i <= 100 && m.Valid() && PairKeyed(m.key) && IsEquality(m.cmp)
      invariant fresh(m) && fresh(m.slots) && fresh(m.slots.data)
      invariant m.Elements() == Tens(i)
    {
      TensEntries(i);
      assert Absent(m.Elements(), i);
      Store(m, i, 0, i * 10);
      i := i + 1;
    }
    TensEntries(100);
    TensSize(100);
    assert m.Size() == |Tens(100)|;
  }

  /** `map[k] = v` for a key the map does not hold: one entry more. */
  method StoreNew<K(==,!new), V(==,!new)>(m: HashTable<K, (K, V)>, k: K, blank: V, v: V)
    requires m.Valid() && PairKeyed(m.key) && IsEquality(m.cmp) && Absent(m.Elements(), k)
    modifies m, m.slots, m.slots.data
    ensures m.Valid() && m.slots == old(m.slots) && (m.slots.data == old(m.slots.data) || fresh(m.slots.data))
    ensures m.Elements() == old(m.Elements()) + multiset{(k, v)}
  {
    Store(m, k, blank, v);
  }

  /** `map[x.0] = v` for an entry `x` the map holds: `x` gives way to `(x.0, v)`. */
  method StoreOver<K(==,!new), V(==,!new)>(m: HashTable<K, (K, V)>, x: (K, V), blank: V, v: V)
    requires m.Valid() && PairKeyed(m.key) && IsEquality(m.cmp) && x in m.Elements()
    modifies m, m.slots, m.slots.data
    ensures m.Valid() && m.slots == old(m.slots) && (m.slots.data == old(m.slots.data) || fresh(m.slots.data))
    ensures m.Elements() + multiset{x} == old(m.Elements()) + multiset{(x.0, v)}
  {
    Store(m, x.0, blank, v);
  }

  /** `Emplace(d)` of an entry whose key the map does not hold: one entry more. */
  method EmplaceNew<K(==,!new), V(==,!new)>(m: HashTable<K, (K, V)>, d: (K, V))
    requires m.Valid() && PairKeyed(m.key) && Absent(m.Elements(), d.0)
    modifies m, m.slots, m.slots.data
    ensures m.Valid() && m.slots == old(m.slots) && (m.slots.data == old(m.slots.data) || fresh(m.slots.data))
    ensures m.Elements() == old(m.Elements()) + multiset{d}
  {
    var r, inserted := m.Emplace(d);
  }

  /**
   * `map[1] = one`, `map[2] = two`, `map[10] = ten`, `Emplace(5, five)`,
   * then `map[1] = uno` (in the demo program the values are the strings
   * "One", "Two", "Ten", "Five" and "Uno"): four entries, with 1 mapped to
   * `uno` and the others to their first values, whatever the hash function.
   */
  method BasicOps<V(==,!new)>(hash: int -> nat, blank: V, one: V, two: V, ten: V, five: V, uno: V)
    returns (m: HashTable<int, (int, V)>)
    ensures m.Valid() && m.Size() == 4
    ensures m.Elements() == multiset{(2, two), (10, ten), (5, five), (1, uno)}
  {
    m := FirstWrites(hash, blank, one, two, ten, five);
    ghost var e := m.Elements();
    StoreOver(m, (1, one), blank, uno);
    Rewritten(e, m.Elements(), one, two, ten, five, uno);
  }

  /** The first four writes of `BasicOps`, on a new map. */
  method FirstWrites<V(==,!new)>(hash: int -> nat, blank: V, one: V, two: V, ten: V, five: V)
    returns (m: HashTable<int, (int, V)>)
    ensures fresh(m) && fresh(m.slots) && fresh(m.slots.data)
    ensures m.Valid() && PairKeyed(m.key) && IsEquality(m.cmp)
    ensures m.Elements() == multiset{(1, one)} + multiset{(2, two)} + multiset{(10, ten)} + multiset{(5, five)}
  {
    m := NewMap(hash, blank);
    StoreNew(m, 1, blank, one);
    assert m.Elements() == multiset{(1, one)};
    StoreNew(m, 2, blank, two);
    ghost var e := multiset{(1, one)} + multiset{(2, two)};
    assert m.Elements() == e && Absent(e, 10);
    StoreNew(m, 10, blank, ten);
    e := e + multiset{(10, ten)};
    assert m.Elements() == e && Absent(e, 5);
    EmplaceNew(m, (5, five));
  }

  /** The entries after the first four writes of `BasicOps`, and after the rewrite of key 1. */
  lemma Rewritten<V>(e: multiset<(int, V)>, e': multiset<(int, V)>, one: V, two: V, ten: V, five: V, uno: V)
    requires e == multiset{(1, one)} + multiset{(2, two)} + multiset{(10, ten)} + multiset{(5, five)}
    requires e' + multiset{(1, one)} == e + multiset{(1, uno)}
    ensures e' == multiset{(2, two), (10, ten), (5, five), (1, uno)} && |e'| == 4
  {
    MultisetCancel(e', multiset{(2, two), (10, ten), (5, five), (1, uno)}, (1, one));
  }
}
