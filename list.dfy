/**
 * The doubly linked list `wtr::List<T>`: nodes on a ring closed by a sentinel
 * node `m_end`, and a count `m_count`. The ring is the sequence `items`, from
 * the sentinel's `next` on; an iterator is a node, written as its position in
 * `items`, with the sentinel (`End()`) at position `|items|`. Running out of
 * memory in `Insert` is not modelled (see the README).
 */
module Lists {
  import opened Ring

  /** An iterator: the list it walks and the position of its node (`|items|` for the sentinel). */
  datatype ListIterator<T> = ListIterator(owner: List<T>, node: nat)

  /** `s` with `x` placed before position `i`. */
  function Inserted<T>(s: seq<T>, i: nat, x: T): seq<T>
    requires i <= |s|
  {
    s[..i] + [x] + s[i..]
  }

  /** `s` without its element at position `i`. */
  function Erased<T>(s: seq<T>, i: nat): seq<T>
    requires i < |s|
  {
    s[..i] + s[i + 1..]
  }

  /** `s` without any element equal to `x`, the others in order. */
  function Removed<T(==)>(s: seq<T>, x: T): seq<T>
  {
    if s == [] then []
    else (if s[0] == x then [] else [s[0]]) + Removed(s[1..], x)
  }

  /** `s` with the element at `from` unlinked and linked in again before the element at `to`. */
  function Moved<T>(s: seq<T>, from: nat, to: nat): seq<T>
    requires from < |s| && to <= |s|
  {
    Inserted(Erased(s, from), if to > from then to - 1 else to, s[from])
  }

  /** Erasing what was just inserted gives back the list. */
  lemma ErasedUndoesInserted<T>(s: seq<T>, i: nat, x: T)
    requires i <= |s|
    ensures |Inserted(s, i, x)| == |s| + 1 && Inserted(s, i, x)[i] == x
    ensures Erased(Inserted(s, i, x), i) == s
  {
    var t := Inserted(s, i, x);
    assert t[..i] == s[..i] && t[i + 1..] == s[i..];
  }

  /** Inserting again what was just erased, at the same place, gives back the list. */
  lemma InsertedUndoesErased<T>(s: seq<T>, i: nat)
    requires i < |s|
    ensures Inserted(Erased(s, i), i, s[i]) == s
  {
    var t := Erased(s, i);
    assert t[..i] == s[..i] && t[i..] == s[i + 1..];
    assert s == s[..i] + [s[i]] + s[i + 1..];
  }

  /** Every element equal to `x` is gone, and every other keeps its number of copies. */
  lemma {:induction false} RemovedSpec<T>(s: seq<T>, x: T)
    ensures x !in Removed(s, x)
    ensures multiset(Removed(s, x)) == multiset(s)[x := 0]
  {
    if s != [] {
      RemovedSpec(s[1..], x);
      assert s == [s[0]] + s[1..];
      assert multiset(s) == multiset{s[0]} + multiset(s[1..]);
    }
  }

  /** Without an element equal to `x`, nothing is removed. */
  lemma {:induction false} RemovedAbsent<T>(s: seq<T>, x: T)
    requires x !in s
    ensures Removed(s, x) == s
  {
    if s != [] {
      assert s[0] != x;
      RemovedAbsent(s[1..], x);
      assert s == [s[0]] + s[1..];
    }
  }

  /** Removing element by element from the front: one more element of `s` decided. */
  lemma {:induction false} RemovedSnoc<T>(s: seq<T>, y: T, x: T)
    ensures Removed(s + [y], x) == Removed(s, x) + (if y == x then [] else [y])
  {
    if s == [] {
      assert [y][1..] == [];
    } else {
      assert (s + [y])[1..] == s[1..] + [y];
      RemovedSnoc(s[1..], y, x);
    }
  }

  /** `Remove`'s walk at element `k` of `s`: the current node holds `s[k]`, and erasing or passing it decides one more element. */
  lemma RemoveStepSeq<T>(s: seq<T>, k: nat, x: T, cur: seq<T>)
    requires k < |s| && cur == Removed(s[..k], x) + s[k..]
    ensures |Removed(s[..k], x)| < |cur| && cur[|Removed(s[..k], x)|] == s[k]
    ensures s[k] == x ==> Erased(cur, |Removed(s[..k], x)|) == Removed(s[..k + 1], x) + s[k + 1..]
    ensures s[k] != x ==> cur == Removed(s[..k + 1], x) + s[k + 1..] && |Removed(s[..k + 1], x)| == |Removed(s[..k], x)| + 1
  {
    var p := Removed(s[..k], x);
    assert s[..k + 1] == s[..k] + [s[k]];
    RemovedSnoc(s[..k], s[k], x);
    assert s[k..] == [s[k]] + s[k + 1..];
    if s[k] == x {
      assert Erased(cur, |p|) == p + s[k + 1..];
    } else {
      assert cur == (p + [s[k]]) + s[k + 1..];
    }
  }

  /** Moving a node keeps the same elements, and the moved one lands just before the element it was moved before. */
  lemma MovedPermutes<T>(s: seq<T>, from: nat, to: nat)
    requires from < |s| && to <= |s|
    ensures multiset(Moved(s, from, to)) == multiset(s)
    ensures Moved(s, from, to)[if to > from then to - 1 else to] == s[from]
  {
    var t := Erased(s, from);
    var j := if to > from then to - 1 else to;
    assert s == s[..from] + [s[from]] + s[from + 1..];
    assert multiset(s) == multiset(t) + multiset{s[from]};
    assert Inserted(t, j, s[from]) == t[..j] + [s[from]] + t[j..];
    assert t == t[..j] + t[j..];
  }

  /** Moving a node to just before itself or its successor leaves the list as it was. */
  lemma MovedInPlace<T>(s: seq<T>, from: nat)
    requires from < |s|
    ensures Moved(s, from, from) == s && Moved(s, from, from + 1) == s
  {
    InsertedUndoesErased(s, from);
  }

  class List<T(==)> {
    /** The items of the ring's nodes, from the sentinel's `next` on. */
    var items: seq<T>
    /** `m_count`. */
    var count: nat

    /** `m_count` is the number of nodes on the ring. */
    ghost predicate Valid()
      reads this
    {
      count == |items|
    }

    /** A new list: the sentinel links to itself and the count is 0. */
    constructor ()
      ensures Valid() && items == [] && Empty() && Size() == 0
    {
      items := [];
      count := 0;
    }

    /** Construction from an initializer list: `PushBack` of each value in order. */
    constructor FromList(init: seq<T>)
      ensures Valid() && items == init
    {
      items := [];
      count := 0;
      new;
      var i := 0;
      while i < |init|
        invariant i <= |init| && Valid() && items == init[..i]
      {
        PushBack(init[i]);
        assert init[..i + 1] == init[..i] + [init[i]];
        i := i + 1;
      }
    }

    /** The move constructor: a new list spliced with all of `other` at `Begin()`. */
    constructor Move(other: List<T>)
      requires other.Valid()
      modifies other
      ensures Valid() && other.Valid()
      ensures items == old(other.items) && other.items == []
    {
      items := [];
      count := 0;
      new;
      Splice(Begin(), other);
    }

    /** Move assignment: unless assigned to itself, clear this list and splice all of `other` in at `End()`. */
    method MoveAssign(other: List<T>)
      requires Valid() && other.Valid()
      modifies this, other
      ensures Valid() && other.Valid()
      ensures other != this ==> items == old(other.items) && other.items == []
      ensures other == this ==> items == old(items)
    {
      if other != this {
        Clear();
        Splice(End(), other);
      }
    }

    /** `Empty()`: the sentinel links to itself. */
    function Empty(): (r: bool)
      reads this
      requires Valid()
      ensures r <==> Size() == 0
    {
      items == []
    }

    /** `Size()`: `m_count`. */
    function Size(): (r: nat)
      reads this
      requires Valid()
      ensures r == |items|
    {
      count
    }

    /** `Front()`: the item of the sentinel's `next`, which must not be the sentinel. */
    function Front(): (r: T)
      reads this
      requires Valid() && items != []
      ensures r == Deref(Begin())
    {
      items[0]
    }

    /** `Back()`: the item of the sentinel's `prev`, which must not be the sentinel. */
    function Back(): (r: T)
      reads this
      requires Valid() && items != []
      ensures r == Deref(RBegin())
    {
      items[|items| - 1]
    }

    /** `Begin()`: the sentinel's `next`, which is the sentinel itself in an empty list. */
    function Begin(): (r: ListIterator<T>)
      reads this
      ensures r == Increment(End())
      ensures r == End() <==> items == []
    {
      ListIterator(this, 0)
    }

    /** `End()`: the sentinel. */
    function End(): (r: ListIterator<T>)
      reads this
    {
      ListIterator(this, |items|)
    }

    /** `rBegin()`: the sentinel's `prev`, which is the sentinel itself in an empty list. */
    function RBegin(): (r: ListIterator<T>)
      reads this
      ensures r == Decrement(End())
    {
      ListIterator(this, if items == [] then 0 else |items| - 1)
    }

    /** `rEnd()`: the sentinel. */
    function REnd(): (r: ListIterator<T>)
      reads this
    {
      ListIterator(this, |items|)
    }

    /**
     * `Insert(pos, item)`: a new node with `item` is linked in just before
     * `pos`'s node, the count grows by one and the new node is returned.
     */
    method Insert(pos: ListIterator<T>, item: T) returns (r: ListIterator<T>)
      requires Valid() && pos.owner == this && pos.node <= |items|
      modifies this
      ensures Valid() && items == Inserted(old(items), pos.node, item)
      ensures r == ListIterator(this, pos.node) && Deref(r) == item
    {
      items := Inserted(items, pos.node, item);
      count := count + 1;
      r := ListIterator(this, pos.node);
    }

    /**
     * `Erase(itr)`: at `End()` nothing changes and `End()` is returned;
     * otherwise the node is unlinked and freed, the count drops by one and
     * the node that followed it is returned.
     */
    method Erase(itr: ListIterator<T>) returns (r: ListIterator<T>)
      requires Valid() && itr.owner == this && itr.node <= |items|
      modifies this
      ensures Valid()
      ensures itr.node == |old(items)| ==> items == old(items) && r == End()
      ensures itr.node < |old(items)| ==> items == Erased(old(items), itr.node) && r == ListIterator(this, itr.node)
    {
      if itr.node == |items| {
        return End();
      }
      items := Erased(items, itr.node);
      count := count - 1;
      r := ListIterator(this, itr.node);
    }

    /** `PushFront(item)`: `Insert` at `Begin()`. */
    method PushFront(item: T)
      requires Valid()
      modifies this
      ensures Valid() && items == [item] + old(items)
    {
      var r := Insert(Begin(), item);
    }

    /** `PushBack(item)`: `Insert` at `End()`. */
    method PushBack(item: T)
      requires Valid()
      modifies this
      ensures Valid() && items == old(items) + [item]
    {
      var r := Insert(End(), item);
    }

    /** `PopFront()`: read the front item and `Erase` its node; the list must not be empty. */
    method PopFront()
      requires Valid() && items != []
      modifies this
      ensures Valid() && items == old(items[1..])
    {
      var front := Front();
      var r := Erase(Begin());
    }

    /** `PopBack()`: read the back item and `Erase` the node before `End()`; the list must not be empty. */
    method PopBack()
      requires Valid() && items != []
      modifies this
      ensures Valid() && items == old(items[..|items| - 1])
    {
      var back := Back();
      var r := Erase(Decrement(End()));
    }

    /** `Clear()`: `PopFront` until the list is empty. */
    method Clear()
      requires Valid()
      modifies this
      ensures Valid() && items == [] && Empty()
    {
      while !Empty()
        invariant Valid()
        decreases |items|
      {
        PopFront();
      }
    }

    /** `Remove(item)`: walk from `Begin()`, erasing every node whose item equals `item`. */
    method Remove(item: T)
      requires Valid()
      modifies this
      ensures Valid() && items == Removed(old(items), item)
    {
      ghost var s := items;
      ghost var k := 0;
      var itr := Begin();
      while itr != End()
        invariant Valid() && itr.owner == this && k <= |s|
        invariant itr.node == |Removed(s[..k], item)|
        invariant items == Removed(s[..k], item) + s[k..]
        decreases |s| - k
      {
        itr := RemoveNext(itr, item, s, k);
        k := k + 1;
      }
      assert s[..k] == s;
    }

    /** One turn of `Remove`'s walk: erase the node at `itr` if its item equals `item`, else step past it. */
    method RemoveNext(itr: ListIterator<T>, item: T, ghost s: seq<T>, ghost k: nat) returns (r: ListIterator<T>)
      requires Valid() && itr.owner == this && k < |s|
      requires itr.node == |Removed(s[..k], item)| && items == Removed(s[..k], item) + s[k..]
      modifies this
      ensures Valid() && r.owner == this
      ensures r.node == |Removed(s[..k + 1], item)| && items == Removed(s[..k + 1], item) + s[k + 1..]
    {
      RemoveStepSeq(s, k, item, items);
      if Deref(itr) == item {
        r := Erase(itr);
      } else {
        r := Increment(itr);
      }
    }

    /** `Find(item)`, by its evident intent: the first node whose item equals `item`, or `End()`. */
    method Find(item: T) returns (r: ListIterator<T>)
      requires Valid()
      ensures r.owner == this && r.node <= |items|
      ensures r.node < |items| ==> items[r.node] == item
      ensures forall j :: 0 <= j < r.node ==> items[j] != item
    {
      var i := 0;
      while i < |items|
        invariant i <= |items|
        invariant forall j :: 0 <= j < i ==> items[j] != item
      {
        if items[i] == item {
          return ListIterator(this, i);
        }
        i := i + 1;
      }
      return End();
    }

    /**
     * `Splice(pos, other)`: unless `other` is this list, link all of
     * `other`'s nodes in before `pos`, in order, move its count over and
     * leave it empty. An empty `other` is left alone (see the README's
     * findings for the code as written).
     */
    method Splice(pos: ListIterator<T>, other: List<T>)
      requires Valid() && other.Valid() && pos.owner == this && pos.node <= |items|
      modifies this, other
      ensures Valid() && other.Valid()
      ensures other == this ==> items == old(items)
      ensures other != this ==> items == old(items[..pos.node]) + old(other.items) + old(items[pos.node..]) && other.items == []
    {
      if other == this {
        return;
      }
      if other.items == [] {
        assert items == items[..pos.node] + items[pos.node..];
        return;
      }
      items := items[..pos.node] + other.items + items[pos.node..];
      count := count + other.count;
      other.items := [];
      other.count := 0;
    }

    /**
     * `Splice(pos, other, itr)`: unless `pos` and `itr` are the same node,
     * unlink `itr`'s node from `other` and link it in just before `pos`;
     * `other` may be this list. `itr` must be a node, not the sentinel.
     */
    method SpliceOne(pos: ListIterator<T>, other: List<T>, itr: ListIterator<T>)
      requires Valid() && other.Valid() && pos.owner == this && pos.node <= |items|
      requires itr.owner == other && itr.node < |other.items|
      modifies this, other
      ensures Valid() && other.Valid()
      ensures other == this ==> items == if pos.node == itr.node then old(items) else Moved(old(items), itr.node, pos.node)
      ensures other != this ==> items == Inserted(old(items), pos.node, old(other.items[itr.node]))
                                && other.items == Erased(old(other.items), itr.node)
    {
      if pos == itr {
        return;
      }
      if other == this {
        items := Moved(items, itr.node, pos.node);
      } else {
        var moved := other.items[itr.node];
        other.items := Erased(other.items, itr.node);
        other.count := other.count - 1;
        items := Inserted(items, pos.node, moved);
        count := count + 1;
      }
    }
  }

  /** `++`: the next node on the ring; from the sentinel, the first node. */
  function Increment<T>(it: ListIterator<T>): (r: ListIterator<T>)
    reads it.owner
    requires it.node <= |it.owner.items|
    ensures r.owner == it.owner && r.node <= |it.owner.items|
  {
    ListIterator(it.owner, Next(it.node, |it.owner.items| + 1))
  }

  /** `--`: the previous node on the ring; from the sentinel, the last node. */
  function Decrement<T>(it: ListIterator<T>): (r: ListIterator<T>)
    reads it.owner
    requires it.node <= |it.owner.items|
    ensures r.owner == it.owner && r.node <= |it.owner.items|
  {
    ListIterator(it.owner, Prev(it.node, |it.owner.items| + 1))
  }

  /** `*`: the item of the iterator's node, which must not be the sentinel. */
  function Deref<T>(it: ListIterator<T>): (r: T)
    reads it.owner
    requires it.node < |it.owner.items|
  {
    it.owner.items[it.node]
  }

  /** `++` and `--` undo each other, whichever comes first. */
  lemma StepsUndo<T>(it: ListIterator<T>)
    requires it.node <= |it.owner.items|
    ensures Decrement(Increment(it)) == it && Increment(Decrement(it)) == it
  {
  }

  /** The items the iterators from `it` up to the sentinel read, in order. */
  ghost function ForwardFrom<T>(it: ListIterator<T>): seq<T>
    reads it.owner
    requires it.node <= |it.owner.items|
    decreases |it.owner.items| - it.node
  {
    if it.node == |it.owner.items| then [] else [Deref(it)] + ForwardFrom(Increment(it))
  }

  /** The items a reverse iterator (`++` is `--`) reads from node `it` back to the sentinel. */
  ghost function BackwardFrom<T>(it: ListIterator<T>): seq<T>
    reads it.owner
    requires it.node <= |it.owner.items|
    decreases it.node + 1
  {
    if it.node == |it.owner.items| then []
    else [Deref(it)] + (if it.node == 0 then [] else BackwardFrom(Decrement(it)))
  }

  /** From `Begin()` to `End()` the iterators read every item in order. */
  lemma {:induction false} ForwardReadsAll<T>(l: List<T>, i: nat)
    requires i <= |l.items|
    ensures ForwardFrom(ListIterator(l, i)) == l.items[i..]
    decreases |l.items| - i
  {
    if i < |l.items| {
      ForwardReadsAll(l, i + 1);
      assert l.items[i..] == [l.items[i]] + l.items[i + 1..];
    }
  }

  /** From `rBegin()` to `rEnd()` the reverse iterators read the items last first. */
  lemma {:induction false} BackwardReadsReversed<T>(l: List<T>, i: nat)
    requires i < |l.items|
    ensures |BackwardFrom(ListIterator(l, i))| == i + 1
    ensures forall j :: 0 <= j <= i ==> BackwardFrom(ListIterator(l, i))[j] == l.items[i - j]
    decreases i
  {
    if i > 0 {
      BackwardReadsReversed(l, i - 1);
    }
  }
}
