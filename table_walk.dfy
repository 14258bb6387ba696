/**
 * Iteration over a hash table's slot list. A forward iterator's index is the
 * slot it reads; `FindUpperIndex` and `FindLowerIndex` move it to the nearest
 * occupied slot above or below. A reverse iterator's index is one past the
 * slot it reads, so that index 0 can be its end.
 */
module TableWalks {
  import opened RobinHood

  /** `FindUpperIndex`: the first occupied slot at or after `i`, or `|t|` when there is none. */
  function UpperIndex<D>(t: seq<Slot<D>>, i: nat): (r: nat)
    requires i <= |t|
    ensures i <= r <= |t|
    ensures r < |t| ==> t[r].psl != -1
    ensures forall j :: i <= j < r ==> t[j].psl == -1
    decreases |t| - i
  {
    if i == |t| || t[i].psl != -1 then i else UpperIndex(t, i + 1)
  }

  /**
   * `FindLowerIndex`: the last occupied slot at or before `i` (slot `|t|`
   * does not exist and is passed over), or 0 when none lies above slot 0,
   * whether slot 0 is occupied or not.
   */
  function LowerIndex<D>(t: seq<Slot<D>>, i: nat): (r: nat)
    requires i <= |t|
    ensures r <= i && (r == 0 || (r < |t| && t[r].psl != -1))
    ensures forall j :: r < j <= i && j < |t| ==> t[j].psl == -1
    decreases i
  {
    if i == 0 then 0
    else if i != |t| && t[i].psl != -1 then i
    else LowerIndex(t, i - 1)
  }

  /**
   * The index search a reverse iterator needs: the last position `r <= i`
   * whose slot `r - 1` is occupied, or 0 when slots `0 .. i - 1` are all empty.
   */
  function ReverseIndex<D>(t: seq<Slot<D>>, i: nat): (r: nat)
    requires i <= |t|
    ensures r <= i && (r > 0 ==> t[r - 1].psl != -1)
    ensures forall j :: r <= j < i ==> t[j].psl == -1
    decreases i
  {
    if i == 0 then 0
    else if t[i - 1].psl != -1 then i
    else ReverseIndex(t, i - 1)
  }

  /** The occupied slots' elements from slot `lo` up to slot `hi`, in slot order. */
  function Elems<D>(t: seq<Slot<D>>, lo: nat, hi: nat): seq<D>
    requires lo <= hi <= |t|
    decreases hi - lo
  {
    if lo == hi then []
    else (if t[lo].psl != -1 then [t[lo].data] else []) + Elems(t, lo + 1, hi)
  }

  /** The elements a forward iterator at position `p` and its successors read until `End()`. */
  function ForwardWalk<D>(t: seq<Slot<D>>, p: nat): seq<D>
    requires p <= |t|
    decreases |t| - p
  {
    if p == |t| then [] else [t[p].data] + ForwardWalk(t, UpperIndex(t, p + 1))
  }

  /** The elements a reverse iterator at position `p` and its successors read until `rEnd()`, as corrected. */
  function ReverseWalk<D>(t: seq<Slot<D>>, p: nat): seq<D>
    requires p <= |t|
    decreases p
  {
    if p == 0 then [] else [t[p - 1].data] + ReverseWalk(t, ReverseIndex(t, p - 1))
  }

  /**
   * The same walk as written: `rBegin()` and `++` move with `FindLowerIndex`,
   * which lands on an occupied slot, while the dereference reads the slot
   * below it.
   */
  function ReverseWalkAsWritten<D>(t: seq<Slot<D>>, p: nat): seq<D>
    requires p <= |t|
    decreases p
  {
    if p == 0 then [] else [t[p - 1].data] + ReverseWalkAsWritten(t, LowerIndex(t, p - 1))
  }

  function Reversed<T>(s: seq<T>): (r: seq<T>)
    ensures |r| == |s|
  {
    if s == [] then [] else Reversed(s[1..]) + [s[0]]
  }

  /** Empty slots at the front of a range add nothing to its elements. */
  lemma {:induction false} ElemsSkipFront<D>(t: seq<Slot<D>>, lo: nat, mid: nat, hi: nat)
    requires lo <= mid <= hi <= |t|
    requires forall j :: lo <= j < mid ==> t[j].psl == -1
    ensures Elems(t, lo, hi) == Elems(t, mid, hi)
    decreases mid - lo
  {
    if lo < mid {
      ElemsSkipFront(t, lo + 1, mid, hi);
    }
  }

  /** A range's elements are those of the range without its last slot, then that slot's. */
  lemma {:induction false} ElemsBack<D>(t: seq<Slot<D>>, lo: nat, hi: nat)
    requires lo < hi <= |t|
    ensures Elems(t, lo, hi) == Elems(t, lo, hi - 1) + (if t[hi - 1].psl != -1 then [t[hi - 1].data] else [])
    decreases hi - lo
  {
    if lo < hi - 1 {
      ElemsBack(t, lo + 1, hi);
    }
  }

  /** Empty slots at the back of a range add nothing to its elements. */
  lemma {:induction false} ElemsSkipBack<D>(t: seq<Slot<D>>, lo: nat, mid: nat, hi: nat)
    requires lo <= mid <= hi <= |t|
    requires forall j :: mid <= j < hi ==> t[j].psl == -1
    ensures Elems(t, lo, hi) == Elems(t, lo, mid)
    decreases hi - mid
  {
    if mid < hi {
      ElemsBack(t, lo, hi);
      ElemsSkipBack(t, lo, mid, hi - 1);
    }
  }

  /** The elements of the first `k` slots, in slot order, are exactly the elements they hold. */
  lemma {:induction false} ElemsOccupants<D>(t: seq<Slot<D>>, k: nat)
    requires k <= |t|
    ensures multiset(Elems(t, 0, k)) == Occupants(t[..k])
  {
    if k > 0 {
      ElemsOccupants(t, k - 1);
      ElemsOccupantsStep(t, k);
    }
  }

  lemma ElemsOccupantsStep<D>(t: seq<Slot<D>>, k: nat)
    requires 0 < k <= |t| && multiset(Elems(t, 0, k - 1)) == Occupants(t[..k - 1])
    ensures multiset(Elems(t, 0, k)) == Occupants(t[..k])
  {
    var s := t[..k];
    var last := if t[k - 1].psl != -1 then [t[k - 1].data] else [];
    ElemsBack(t, 0, k);
    assert s[..k - 1] == t[..k - 1] && s[k - 1] == t[k - 1];
    assert Occupants(s) == Occupants(t[..k - 1]) + OccupantOf(t[k - 1]);
    assert multiset(last) == OccupantOf(t[k - 1]);
  }

  /** From an occupied position, the forward walk reads the elements of the slots from there on, in order. */
  lemma {:induction false} ForwardWalkElems<D>(t: seq<Slot<D>>, p: nat)
    requires p <= |t| && (p < |t| ==> t[p].psl != -1)
    ensures ForwardWalk(t, p) == Elems(t, p, |t|)
    decreases |t| - p
  {
    if p < |t| {
      var u := UpperIndex(t, p + 1);
      ForwardWalkElems(t, u);
      ElemsSkipFront(t, p + 1, u, |t|);
    }
  }

  /** From a position whose slot below is occupied, the corrected reverse walk reads the slots below, last first. */
  lemma {:induction false} ReverseWalkElems<D>(t: seq<Slot<D>>, p: nat)
    requires p <= |t| && (p > 0 ==> t[p - 1].psl != -1)
    ensures ReverseWalk(t, p) == Reversed(Elems(t, 0, p))
    decreases p
  {
    if p > 0 {
      var r := ReverseIndex(t, p - 1);
      ReverseWalkElems(t, r);
      ElemsBack(t, 0, p);
      ElemsSkipBack(t, 0, r, p - 1);
      ReversedAppend(Elems(t, 0, p - 1), [t[p - 1].data]);
    }
  }

  lemma {:induction false} ReversedAppend<T>(a: seq<T>, b: seq<T>)
    ensures Reversed(a + b) == Reversed(b) + Reversed(a)
    decreases |a|
  {
    if a == [] {
      assert a + b == b;
    } else {
      assert (a + b)[1..] == a[1..] + b;
      ReversedAppend(a[1..], b);
    }
  }

  /** Iterating from `Begin()` to `End()` reads every element exactly once, in slot order. */
  lemma ForwardWalkComplete<D>(t: seq<Slot<D>>)
    ensures ForwardWalk(t, UpperIndex(t, 0)) == Elems(t, 0, |t|)
    ensures multiset(ForwardWalk(t, UpperIndex(t, 0))) == Occupants(t)
  {
    ForwardWalkElems(t, UpperIndex(t, 0));
    ElemsSkipFront(t, 0, UpperIndex(t, 0), |t|);
    ElemsOccupants(t, |t|);
    assert t[..|t|] == t;
  }

  /** With the corrected index search, iterating from `rBegin()` to `rEnd()` reads the forward order reversed. */
  lemma ReverseWalkReverses<D>(t: seq<Slot<D>>)
    ensures ReverseWalk(t, ReverseIndex(t, |t|)) == Reversed(ForwardWalk(t, UpperIndex(t, 0)))
  {
    ForwardWalkComplete(t);
    ReverseWalkElems(t, ReverseIndex(t, |t|));
    ElemsSkipBack(t, 0, ReverseIndex(t, |t|), |t|);
  }

  /**
   * As written, a table whose only element sits in slot 0 has `rBegin() ==
   * rEnd()`: the reverse walk reads nothing though the forward walk reads the element.
   */
  lemma ReverseWalkAsWrittenMisses<D>(x: D)
    ensures var t := [Slot(x, 0), Slot(x, -1), Slot(x, -1), Slot(x, -1)];
      ForwardWalk(t, UpperIndex(t, 0)) == [x] && ReverseWalkAsWritten(t, LowerIndex(t, |t|)) == []
      && ReverseWalk(t, ReverseIndex(t, |t|)) == [x]
  {
    var t := [Slot(x, 0), Slot(x, -1), Slot(x, -1), Slot(x, -1)];
    assert UpperIndex(t, 1) == 4;
    assert LowerIndex(t, 4) == 0;
    assert ReverseIndex(t, 4) == 1;
    assert ReverseIndex(t, 0) == 0;
  }
}
