/**
 * The links of `wtr::List`'s nodes, for the whole-list `Splice(pos, other)`
 * as written: every node, sentinels included, has a `prev` and a `next`.
 * `Empty()` reads the sentinel's links while `Size()` reads the count, so a
 * splice that leaves a sentinel linked to a node it does not own makes the
 * two disagree.
 */
module ListLinks {

  /** A node: the sentinel `m_end` of list `list`, or an item node. */
  datatype NodeId = Sentinel(list: nat) | Item(id: nat)

  /** A node's `prev` and `next`. */
  datatype Links = Links(prev: NodeId, next: NodeId)

  /** `Empty()` of list `list`: its sentinel links to itself both ways. */
  predicate EmptyRing(r: map<NodeId, Links>, list: nat)
    requires Sentinel(list) in r
  {
    r[Sentinel(list)] == Links(Sentinel(list), Sentinel(list))
  }

  /** The nodes `SpliceAsWritten` reads the links of are all known. */
  predicate Linked(r: map<NodeId, Links>, node: NodeId, other: nat)
  {
    node in r && Sentinel(other) in r && r[node].prev in r
    && r[Sentinel(other)].next in r && r[Sentinel(other)].prev in r
  }

  /**
   * The link writes of `Splice(pos, other)` for another list, as written:
   * `other`'s head and tail go between `pos`'s node and its `prev`, then
   * `other`'s sentinel is reset to link to itself. Nothing checks that
   * `other` has a node.
   */
  function SpliceAsWritten(r: map<NodeId, Links>, node: NodeId, other: nat): map<NodeId, Links>
    requires Linked(r, node, other)
  {
    var end := Sentinel(other);
    var prev, head, tail := r[node].prev, r[end].next, r[end].prev;
    var r1 := r[prev := r[prev].(next := head)];
    var r2 := r1[head := r1[head].(prev := prev)];
    var r3 := r2[node := r2[node].(prev := tail)];
    var r4 := r3[tail := r3[tail].(next := node)];
    r4[end := Links(end, end)]
  }

  /** The splice with the missing check: an empty `other` leaves every link alone. */
  function Splice(r: map<NodeId, Links>, node: NodeId, other: nat): map<NodeId, Links>
    requires Linked(r, node, other)
  {
    if EmptyRing(r, other) then r else SpliceAsWritten(r, node, other)
  }

  /** Two empty lists, 0 and 1, as their constructors leave them. */
  function TwoEmptyLists(): map<NodeId, Links>
  {
    map[Sentinel(0) := Links(Sentinel(0), Sentinel(0)), Sentinel(1) := Links(Sentinel(1), Sentinel(1))]
  }

  /**
   * Splicing empty list 1 into empty list 0 at `End()`, as written, links
   * list 0's sentinel to list 1's: `Empty()` of list 0 is false while its
   * count stays 0, and walking on from `Begin()` stays at list 1's sentinel
   * and never comes back to `End()`. The move constructor and move
   * assignment from an empty list do exactly this splice.
   */
  lemma SpliceEmptyAsWrittenBreaks()
    ensures Linked(TwoEmptyLists(), Sentinel(0), 1)
    ensures var r := SpliceAsWritten(TwoEmptyLists(), Sentinel(0), 1);
      Sentinel(0) in r && Sentinel(1) in r && !EmptyRing(r, 0)
      && r[Sentinel(0)].next == Sentinel(1) && r[Sentinel(1)].next == Sentinel(1)
  {
    var r := SpliceAsWritten(TwoEmptyLists(), Sentinel(0), 1);
    assert r[Sentinel(0)] == Links(Sentinel(1), Sentinel(1));
  }

  /** With the check, splicing an empty list changes no link, so every list that was empty stays empty. */
  lemma SpliceEmptyKeeps(r: map<NodeId, Links>, node: NodeId, other: nat, list: nat)
    requires Linked(r, node, other) && EmptyRing(r, other)
    requires Sentinel(list) in r && EmptyRing(r, list)
    ensures Sentinel(list) in Splice(r, node, other) && EmptyRing(Splice(r, node, other), list)
  {
  }

  /**
   * With the check, splicing a one-node list into an empty list at `End()`
   * gives two well-linked rings: the node between list 0's sentinel and
   * itself, and list 1 empty.
   */
  lemma SpliceOneNode()
    ensures var r := map[Sentinel(0) := Links(Sentinel(0), Sentinel(0)),
                         Sentinel(1) := Links(Item(0), Item(0)),
                         Item(0) := Links(Sentinel(1), Sentinel(1))];
      Linked(r, Sentinel(0), 1)
      && Splice(r, Sentinel(0), 1) == map[Sentinel(0) := Links(Item(0), Item(0)),
                                         Sentinel(1) := Links(Sentinel(1), Sentinel(1)),
                                         Item(0) := Links(Sentinel(0), Sentinel(0))]
  {
    var r := map[Sentinel(0) := Links(Sentinel(0), Sentinel(0)),
                 Sentinel(1) := Links(Item(0), Item(0)),
                 Item(0) := Links(Sentinel(1), Sentinel(1))];
    var r' := Splice(r, Sentinel(0), 1);
    assert !EmptyRing(r, 1);
    assert r'.Keys == r.Keys;
  }
}
