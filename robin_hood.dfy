/**
 * The slot-sequence invariants of `wtr::HashTable`'s Robin Hood open
 * addressing, and the facts its probe, erase and shift loops rely on.
 * A slot holds an element and its probe sequence length (psl): how many slots
 * past its home slot `hash(key) % n` the element sits; psl -1 marks an empty slot.
 */
module RobinHood {
  import opened Ring

  datatype Slot<D> = Slot(data: D, psl: int)

  /** The home slot of an element in a table of `n` slots. */
  function Home<K, D>(hash: K -> nat, key: D -> K, d: D, n: nat): (r: nat)
    requires n > 0
    ensures r < n
  {
    hash(key(d)) % n
  }

  /** An occupied slot's psl is its distance from its home slot; an empty slot's psl is -1. */
  ghost predicate PslCorrect<K, D>(t: seq<Slot<D>>, hash: K -> nat, key: D -> K)
  {
    forall i :: 0 <= i < |t| ==>
      t[i].psl == -1 || (t[i].psl >= 0 && t[i].psl == Dist(Home(hash, key, t[i].data, |t|), i, |t|))
  }

  /** The Robin Hood order: an element displaced by `p > 0` follows an element displaced by at least `p - 1`. */
  ghost predicate Ordered<D>(t: seq<Slot<D>>)
  {
    forall i :: 0 <= i < |t| && t[i].psl > 0 ==> t[Prev(i, |t|)].psl >= t[i].psl - 1
  }

  /** No key is held by two occupied slots. */
  ghost predicate DistinctKeys<K, D>(t: seq<Slot<D>>, key: D -> K)
  {
    forall i, j :: 0 <= i < |t| && 0 <= j < |t| && i != j && t[i].psl != -1 && t[j].psl != -1 ==>
      key(t[i].data) != key(t[j].data)
  }

  /** Some slot is empty or holds an element at its home: every run of displaced elements ends. */
  ghost predicate HasAnchor<D>(t: seq<Slot<D>>)
  {
    |t| > 0 ==> exists j :: 0 <= j < |t| && t[j].psl <= 0
  }

  /** All four invariants of a table's slot list. */
  ghost predicate Table<K, D>(t: seq<Slot<D>>, hash: K -> nat, key: D -> K)
  {
    PslCorrect(t, hash, key) && Ordered(t) && DistinctKeys(t, key) && HasAnchor(t)
  }

  /** The key `k` is held by no occupied slot. */
  ghost predicate KeyAbsent<K, D>(t: seq<Slot<D>>, key: D -> K, k: K)
  {
    forall j :: 0 <= j < |t| && t[j].psl != -1 ==> key(t[j].data) != k
  }

  /** The element an occupied slot holds, as a multiset of at most one element. */
  function OccupantOf<D>(s: Slot<D>): multiset<D>
  {
    if s.psl == -1 then multiset{} else multiset{s.data}
  }

  /** The elements a slot list holds. */
  function Occupants<D>(t: seq<Slot<D>>): multiset<D>
  {
    if t == [] then multiset{} else Occupants(t[..|t| - 1]) + OccupantOf(t[|t| - 1])
  }

  /** The sum of the non-negative psls: what the backward shift lowers. */
  function SumPsl<D>(t: seq<Slot<D>>): nat
  {
    if t == [] then 0 else SumPsl(t[..|t| - 1]) + (if t[|t| - 1].psl > 0 then t[|t| - 1].psl else 0)
  }

  /** Overwriting one slot trades its occupant for the new slot's. */
  lemma {:induction false} OccupantsUpdate<D>(t: seq<Slot<D>>, i: nat, s: Slot<D>)
    requires i < |t|
    ensures Occupants(t[i := s]) + OccupantOf(t[i]) == Occupants(t) + OccupantOf(s)
  {
    var u := t[i := s];
    var m := |t| - 1;
    var a, x, y := Occupants(t[..m]), OccupantOf(t[i]), OccupantOf(s);
    assert Occupants(t) == a + OccupantOf(t[m]);
    if i == m {
      assert u[..m] == t[..m];
      assert Occupants(u) == a + y;
      assert (a + y) + x == (a + x) + y;
    } else {
      var z := OccupantOf(t[m]);
      assert u[..m] == t[..m][i := s];
      assert Occupants(u) == Occupants(u[..m]) + z;
      OccupantsUpdate(t[..m], i, s);
      MultisetShuffle(a, Occupants(u[..m]), x, y, z);
    }
  }

  lemma MultisetShuffle<D>(a: multiset<D>, b: multiset<D>, x: multiset<D>, y: multiset<D>, z: multiset<D>)
    requires b + x == a + y
    ensures (b + z) + x == (a + z) + y
  {
    assert (b + z) + x == (b + x) + z;
    assert (a + z) + y == (a + y) + z;
  }

  /** Overwriting one slot changes the psl sum by the difference of the two psls. */
  lemma {:induction false} SumPslUpdate<D>(t: seq<Slot<D>>, i: nat, s: Slot<D>)
    requires i < |t|
    ensures SumPsl(t[i := s]) + (if t[i].psl > 0 then t[i].psl else 0)
            == SumPsl(t) + (if s.psl > 0 then s.psl else 0)
  {
    var u := t[i := s];
    var m := |t| - 1;
    if i == m {
      assert u[..m] == t[..m];
    } else {
      assert u[..m] == t[..m][i := s];
      SumPslUpdate(t[..m], i, s);
    }
  }

  /** There are no more elements than slots, and fewer elements than slots leaves a slot empty. */
  lemma {:induction false} OccupantsBound<D>(t: seq<Slot<D>>)
    ensures |Occupants(t)| <= |t|
    ensures |Occupants(t)| < |t| ==> exists j :: 0 <= j < |t| && t[j].psl == -1
  {
    if t != [] {
      var m := |t| - 1;
      OccupantsBound(t[..m]);
      if |Occupants(t)| < |t| {
        if t[m].psl != -1 {
          var j :| 0 <= j < m && t[..m][j].psl == -1;
          assert t[j].psl == -1;
        }
      }
    }
  }

  /** Every occupied slot's element is among the occupants. */
  lemma {:induction false} OccupantIn<D>(t: seq<Slot<D>>, j: nat)
    requires j < |t| && t[j].psl != -1
    ensures t[j].data in Occupants(t)
  {
    var m := |t| - 1;
    if j < m {
      OccupantIn(t[..m], j);
    }
  }

  /** As many elements as slots leaves no slot empty. */
  lemma {:induction false} FullHasNoHole<D>(t: seq<Slot<D>>)
    requires |Occupants(t)| == |t|
    ensures forall j :: 0 <= j < |t| ==> t[j].psl != -1
  {
    if t != [] {
      var m := |t| - 1;
      OccupantsBound(t[..m]);
      assert t[m].psl != -1 && |Occupants(t[..m])| == m;
      FullHasNoHole(t[..m]);
      assert forall j :: 0 <= j < m ==> t[j] == t[..m][j];
    }
  }

  /**
   * A full slot list offers an element whose key none of its elements has
   * neither of the two exits of the probe loop: every slot is occupied, and
   * by an element with another key. This is the state `Rehash` reaches when
   * asked for fewer slots than it has elements.
   */
  lemma FullListNoProbeExit<K, D>(t: seq<Slot<D>>, d: D, key: D -> K)
    requires |Occupants(t)| == |t|
    requires forall x :: x in Occupants(t) ==> key(x) != key(d)
    ensures forall i :: 0 <= i < |t| ==> t[i].psl != -1 && key(t[i].data) != key(d)
  {
    FullHasNoHole(t);
    forall i | 0 <= i < |t|
      ensures key(t[i].data) != key(d)
    {
      OccupantIn(t, i);
    }
  }

  /**
   * Walking back from an element displaced by `p`, the slot `m <= p` steps
   * back holds an element displaced by at least `p - m`.
   */
  lemma {:induction false} Chain<D>(t: seq<Slot<D>>, j: nat, m: nat)
    requires Ordered(t) && j < |t| && m < |t| && m <= t[j].psl
    ensures t[Back(j, m, |t|)].psl >= t[j].psl - m
  {
    if m > 0 {
      Chain(t, j, m - 1);
      var b := Back(j, m - 1, |t|);
      assert Prev(b, |t|) == Back(j, m, |t|);
    }
  }

  /**
   * With an empty slot `e` in the table, every psl is less than the distance
   * from `e` to its slot, so no psl reaches `n - 1`.
   */
  lemma PslBelowGap<D>(t: seq<Slot<D>>, j: nat, e: nat)
    requires Ordered(t) && j < |t| && e < |t| && t[e].psl == -1 && t[j].psl >= 0
    ensures t[j].psl < Dist(e, j, |t|)
  {
    var n := |t|;
    if t[j].psl >= Dist(e, j, n) {
      Chain(t, j, Dist(e, j, n));
    }
  }

  /**
   * The state of a Robin Hood insertion that started at slot `i0` of the slot
   * list `t0`: the list is now `t`, the element being carried is `c` (its psl
   * counted from its own home), the probe stands at `i`, and `e` is an empty
   * slot of `t0` the probe has not passed. Slots from `i` on are untouched.
   */
  ghost predicate Probing<K, D>(t0: seq<Slot<D>>, t: seq<Slot<D>>, c: Slot<D>, i: nat, i0: nat, e: nat,
                                hash: K -> nat, key: D -> K)
  {
    var n := |t|;
    |t0| == n && i < n && i0 < n && e < n
    && PslCorrect(t, hash, key) && Ordered(t) && Ordered(t0)
    && 0 <= c.psl && c.psl == Dist(Home(hash, key, c.data, n), i, n)
    && (c.psl > 0 ==> t[Prev(i, n)].psl >= c.psl - 1)
    && (i == i0 ==> c.psl == 0)
    && t0[e].psl == -1 && Dist(i0, i, n) <= Dist(i0, e, n)
    && (forall j :: 0 <= j < n && Dist(i0, i, n) <= Dist(i0, j, n) ==> t[j] == t0[j])
    && (t[i0] == t0[i0] || t[i0].psl == 0)
  }

  /**
   * One probe step at an occupied slot: the carried element takes the slot
   * when it is displaced further than the occupant (which is carried on
   * instead), and the carried psl grows by one for the next slot.
   */
  function ProbeStep<D>(t: seq<Slot<D>>, c: Slot<D>, i: nat): (seq<Slot<D>>, Slot<D>)
    requires i < |t|
  {
    if c.psl > t[i].psl then (t[i := c], Slot(t[i].data, t[i].psl + 1))
    else (t, Slot(c.data, c.psl + 1))
  }

  /** A fresh insertion of `d` into a valid slot list with an empty slot starts in a probing state. */
  lemma ProbeStart<K, D>(t: seq<Slot<D>>, d: D, e: nat, hash: K -> nat, key: D -> K)
    requires PslCorrect(t, hash, key) && Ordered(t) && e < |t| && t[e].psl == -1
    ensures Probing(t, t, Slot(d, 0), Home(hash, key, d, |t|), Home(hash, key, d, |t|), e, hash, key)
  {
  }

  /** Putting the carried element into slot `i`, displacing a less displaced occupant, keeps the order. */
  lemma SwapOrdered<D>(t: seq<Slot<D>>, c: Slot<D>, i: nat)
    requires Ordered(t) && i < |t| && |t| > 1 && c.psl > t[i].psl
    requires c.psl > 0 ==> t[Prev(i, |t|)].psl >= c.psl - 1
    ensures Ordered(t[i := c])
  {
    var n := |t|;
    var u := t[i := c];
    forall j | 0 <= j < n && u[j].psl > 0
      ensures u[Prev(j, n)].psl >= u[j].psl - 1
    {
      if j != i && j != Next(i, n) {
        assert Prev(j, n) != i;
      }
    }
  }

  /** Overwriting a visited slot keeps the slots from the next probe position on untouched. */
  lemma StepUnvisited<D>(t0: seq<Slot<D>>, t: seq<Slot<D>>, u: seq<Slot<D>>, i: nat, i0: nat)
    requires |t0| == |t| == |u| && i < |t| && i0 < |t| && Dist(i0, i, |t|) + 1 < |t|
    requires forall j :: 0 <= j < |t| && j != i ==> u[j] == t[j]
    requires forall j :: 0 <= j < |t| && Dist(i0, i, |t|) <= Dist(i0, j, |t|) ==> t[j] == t0[j]
    ensures forall j :: 0 <= j < |t| && Dist(i0, Next(i, |t|), |t|) <= Dist(i0, j, |t|) ==> u[j] == t0[j]
  {
  }

  /** A probe step at an occupied slot keeps the probing state. */
  lemma ProbeStepKeeps<K, D>(t0: seq<Slot<D>>, t: seq<Slot<D>>, c: Slot<D>, i: nat, i0: nat, e: nat,
                             hash: K -> nat, key: D -> K)
    requires Probing(t0, t, c, i, i0, e, hash, key) && t[i].psl != -1
    ensures Probing(t0, ProbeStep(t, c, i).0, ProbeStep(t, c, i).1, Next(i, |t|), i0, e, hash, key)
    ensures Dist(i0, Next(i, |t|), |t|) == Dist(i0, i, |t|) + 1
  {
    var n := |t|;
    var (u, c') := ProbeStep(t, c, i);
    assert t[e] == t0[e];
    PslBelowGap(t, i, e);
    DistNext(i0, i, n);
    DistNext(Home(hash, key, c'.data, n), i, n);
    StepUnvisited(t0, t, u, i, i0);
    if c.psl > t[i].psl {
      SwapOrdered(t, c, i);
    }
  }

  /** A probe step keeps the elements held, counting the carried one. */
  lemma ProbeStepOccupants<D>(t: seq<Slot<D>>, c: Slot<D>, i: nat)
    requires i < |t| && t[i].psl != -1 && c.psl != -1
    ensures Occupants(ProbeStep(t, c, i).0) + multiset{ProbeStep(t, c, i).1.data}
            == Occupants(t) + multiset{c.data}
  {
    if c.psl > t[i].psl {
      OccupantsUpdate(t, i, c);
    }
  }

  /** Placing the carried element into the empty slot the probe reached leaves a valid slot list. */
  lemma ProbeFinish<K, D>(t0: seq<Slot<D>>, t: seq<Slot<D>>, c: Slot<D>, i: nat, i0: nat, e: nat,
                          hash: K -> nat, key: D -> K)
    requires Probing(t0, t, c, i, i0, e, hash, key) && t[i].psl == -1
    ensures PslCorrect(t[i := c], hash, key) && Ordered(t[i := c]) && HasAnchor(t[i := c])
    ensures Occupants(t[i := c]) == Occupants(t) + multiset{c.data}
  {
    ProbeFinishOrdered(t0, t, c, i, i0, e, hash, key);
    ProbeFinishAnchor(t0, t, c, i, i0, e, hash, key);
    OccupantsUpdate(t, i, c);
  }

  /** The placement at the end of the probe keeps every psl and the Robin Hood order. */
  lemma ProbeFinishOrdered<K, D>(t0: seq<Slot<D>>, t: seq<Slot<D>>, c: Slot<D>, i: nat, i0: nat, e: nat,
                                 hash: K -> nat, key: D -> K)
    requires Probing(t0, t, c, i, i0, e, hash, key) && t[i].psl == -1
    ensures PslCorrect(t[i := c], hash, key) && Ordered(t[i := c])
  {
    var n := |t|;
    var u := t[i := c];
    forall j | 0 <= j < n && u[j].psl > 0
      ensures u[Prev(j, n)].psl >= u[j].psl - 1
    {
      if j != i {
        assert Prev(j, n) != i;
      }
    }
  }

  /** The placement at the end of the probe leaves a slot with psl at most 0. */
  lemma ProbeFinishAnchor<K, D>(t0: seq<Slot<D>>, t: seq<Slot<D>>, c: Slot<D>, i: nat, i0: nat, e: nat,
                                hash: K -> nat, key: D -> K)
    requires Probing(t0, t, c, i, i0, e, hash, key) && t[i].psl == -1
    ensures HasAnchor(t[i := c])
  {
    var n := |t|;
    var u := t[i := c];
    var ni := Next(i, n);
    assert t[i] == t0[i];
    if i == i0 {
      assert u[i].psl <= 0;
    } else if ni == i0 {
      assert Prev(ni, n) == i;
      assert u[ni].psl <= 0;
    } else {
      DistNext(i0, i, n);
      assert Prev(ni, n) == i;
      assert u[ni] == t0[ni];
    }
  }

  /** A probe step keeps every key distinct while the carried key is not in the list. */
  lemma ProbeStepKeys<K, D>(t: seq<Slot<D>>, c: Slot<D>, i: nat, key: D -> K)
    requires i < |t| && t[i].psl != -1 && c.psl != -1
    requires DistinctKeys(t, key) && KeyAbsent(t, key, key(c.data))
    ensures DistinctKeys(ProbeStep(t, c, i).0, key)
    ensures KeyAbsent(ProbeStep(t, c, i).0, key, key(ProbeStep(t, c, i).1.data))
  {
  }

  /** Placing an element whose key is absent keeps every key distinct. */
  lemma PlaceKeys<K, D>(t: seq<Slot<D>>, c: Slot<D>, i: nat, key: D -> K)
    requires i < |t| && DistinctKeys(t, key) && KeyAbsent(t, key, key(c.data))
    ensures DistinctKeys(t[i := c], key)
  {
  }

  /**
   * A key held at slot `j` lies ahead of a probe from its home that has not
   * passed `j`: every slot the probe meets first holds an element displaced
   * at least as far as the probe has come.
   */
  lemma DuplicateAhead<K, D>(t: seq<Slot<D>>, j: nat, i: nat, hash: K -> nat, key: D -> K)
    requires PslCorrect(t, hash, key) && Ordered(t) && j < |t| && i < |t| && t[j].psl != -1
    requires Dist(Home(hash, key, t[j].data, |t|), i, |t|) <= Dist(Home(hash, key, t[j].data, |t|), j, |t|)
    ensures t[i].psl >= Dist(Home(hash, key, t[j].data, |t|), i, |t|)
  {
    var n := |t|;
    var h := Home(hash, key, t[j].data, n);
    var m := Dist(i, j, n);
    assert m == Dist(h, j, n) - Dist(h, i, n);
    Chain(t, j, m);
    assert Back(j, m, n) == i;
  }

  /** An erased slot: its psl becomes -1 and the moved-from element stays behind. */
  function Vacated<D>(s: Slot<D>): (r: Slot<D>)
    ensures r.psl == -1
  {
    Slot(s.data, -1)
  }

  /** The elements held by the `k` slots from slot `f` on, wrapping around. */
  function RangeOccupants<D>(t: seq<Slot<D>>, f: nat, k: nat): multiset<D>
    requires f < |t| && k <= |t|
  {
    if k == 0 then multiset{} else RangeOccupants(t, f, k - 1) + OccupantOf(t[Add(f, k - 1, |t|)])
  }

  /**
   * The state of the backward shift that closes the gap an erase leaves: the
   * `g` slots from `f` on are empty, `l` is the slot just after them, every
   * slot but `l` keeps the Robin Hood order, and the element at `l` would keep
   * it once moved back over the whole gap.
   */
  ghost predicate Shifting<K, D>(t: seq<Slot<D>>, f: nat, l: nat, g: nat, hash: K -> nat, key: D -> K)
  {
    var n := |t|;
    f < n && l < n && g <= n
    && (g < n ==> g == Dist(f, l, n))
    && PslCorrect(t, hash, key)
    && (forall j :: 0 <= j < n && j != l && t[j].psl > 0 ==> t[Prev(j, n)].psl >= t[j].psl - 1)
    && (forall j :: 0 <= j < n && Dist(f, j, n) < g ==> t[j].psl == -1)
    && (t[l].psl > g ==> t[Prev(f, n)].psl >= t[l].psl - g - 1)
  }

  /** How far the element at `l` moves back: its psl, but no further than the gap. */
  function ShiftDistance<D>(t: seq<Slot<D>>, l: nat, g: nat): nat
    requires l < |t| && t[l].psl > 0
  {
    if t[l].psl > g then g else t[l].psl
  }

  /**
   * One backward-shift step: the element at `l` moves `ShiftDistance` slots
   * back with its psl lowered by as much, and slot `l` is vacated (a move onto
   * itself changes nothing).
   */
  function ShiftStep<D>(t: seq<Slot<D>>, l: nat, g: nat): seq<Slot<D>>
    requires l < |t| && t[l].psl > 0 && g <= |t|
  {
    var d := ShiftDistance(t, l, g);
    var nx := Back(l, d, |t|);
    if nx == l then t[l := Slot(t[l].data, t[l].psl - d)]
    else t[nx := Slot(t[l].data, t[l].psl - d)][l := Vacated(t[l])]
  }

  /** Emptying the `g` slots from `f` on in a valid slot list starts the backward shift. */
  lemma EraseStart<K, D>(t0: seq<Slot<D>>, t: seq<Slot<D>>, f: nat, g: nat, hash: K -> nat, key: D -> K)
    requires PslCorrect(t0, hash, key) && Ordered(t0) && |t| == |t0| && f < |t| && g <= |t|
    requires forall j :: 0 <= j < |t| && Dist(f, j, |t|) < g ==> t[j] == Vacated(t0[j])
    requires forall j :: 0 <= j < |t| && g <= Dist(f, j, |t|) ==> t[j] == t0[j]
    ensures Shifting(t, f, if g < |t| then Add(f, g, |t|) else f, g, hash, key)
  {
    EraseStartOrdered(t0, t, f, g, hash, key);
    EraseStartChain(t0, t, f, g, hash, key);
  }

  /** After emptying the `g` slots from `f` on, the Robin Hood order holds everywhere but at the slot after them. */
  lemma EraseStartOrdered<K, D>(t0: seq<Slot<D>>, t: seq<Slot<D>>, f: nat, g: nat, hash: K -> nat, key: D -> K)
    requires PslCorrect(t0, hash, key) && Ordered(t0) && |t| == |t0| && f < |t| && g <= |t|
    requires forall j :: 0 <= j < |t| && Dist(f, j, |t|) < g ==> t[j] == Vacated(t0[j])
    requires forall j :: 0 <= j < |t| && g <= Dist(f, j, |t|) ==> t[j] == t0[j]
    ensures var l := if g < |t| then Add(f, g, |t|) else f;
      forall j :: 0 <= j < |t| && j != l && t[j].psl > 0 ==> t[Prev(j, |t|)].psl >= t[j].psl - 1
  {
    var n := |t|;
    var l := if g < n then Add(f, g, n) else f;
    forall j | 0 <= j < n && j != l && t[j].psl > 0
      ensures t[Prev(j, n)].psl >= t[j].psl - 1
    {
      var pj := Prev(j, n);
      assert t[j] == t0[j];
      if Dist(f, pj, n) + 1 < n {
        DistNext(f, pj, n);
      }
      assert t[pj] == t0[pj];
    }
  }

  /** After emptying the `g` slots from `f` on, the element after them would keep the order once moved back over all of them. */
  lemma EraseStartChain<K, D>(t0: seq<Slot<D>>, t: seq<Slot<D>>, f: nat, g: nat, hash: K -> nat, key: D -> K)
    requires PslCorrect(t0, hash, key) && Ordered(t0) && |t| == |t0| && f < |t| && g <= |t|
    requires forall j :: 0 <= j < |t| && Dist(f, j, |t|) < g ==> t[j] == Vacated(t0[j])
    requires forall j :: 0 <= j < |t| && g <= Dist(f, j, |t|) ==> t[j] == t0[j]
    ensures var l := if g < |t| then Add(f, g, |t|) else f;
      t[l].psl > g ==> t[Prev(f, |t|)].psl >= t[l].psl - g - 1
  {
    var n := |t|;
    var l := if g < n then Add(f, g, n) else f;
    if g < n && t[l].psl > g {
      Chain(t0, l, g + 1);
      assert Back(l, g + 1, n) == Prev(f, n);
    }
  }

  /** With no gap, a shift step changes nothing and moves on to the next slot, keeping the state. */
  lemma ShiftStepEmptyGap<K, D>(t: seq<Slot<D>>, f: nat, l: nat, hash: K -> nat, key: D -> K)
    requires Shifting(t, f, l, 0, hash, key) && t[l].psl > 0
    ensures ShiftStep(t, l, 0) == t
    ensures Back(l, 0, |t|) == l
    ensures Shifting(t, Next(l, |t|), Next(l, |t|), 0, hash, key)
  {
  }

  /** Over a gap, a shift step keeps the shifting state with the gap it leaves behind. */
  lemma ShiftStepKeeps<K, D>(t: seq<Slot<D>>, f: nat, l: nat, g: nat, hash: K -> nat, key: D -> K)
      returns (d: nat, nx: nat, u: seq<Slot<D>>)
    requires Shifting(t, f, l, g, hash, key) && t[l].psl > 0 && g > 0
    ensures d == ShiftDistance(t, l, g) && nx == Back(l, d, |t|) && u == ShiftStep(t, l, g)
    ensures nx != l && t[nx].psl == -1 && 0 < d <= t[l].psl
    ensures u == t[nx := Slot(t[l].data, t[l].psl - d)][l := Vacated(t[l])]
    ensures Dist(Next(nx, |t|), Next(l, |t|), |t|) == d
    ensures Shifting(u, Next(nx, |t|), Next(l, |t|), d, hash, key)
  {
    d := ShiftDistance(t, l, g);
    nx := Back(l, d, |t|);
    u := ShiftStep(t, l, g);
    ShiftNewGap(t, f, l, g, hash, key);
    ShiftNewOrder(t, f, l, g, hash, key);
  }

  /** The slots a shift step leaves behind form the new gap, and the moved element's psl stays correct. */
  lemma ShiftNewGap<K, D>(t: seq<Slot<D>>, f: nat, l: nat, g: nat, hash: K -> nat, key: D -> K)
    requires Shifting(t, f, l, g, hash, key) && t[l].psl > 0 && g > 0
    ensures var nx := Back(l, ShiftDistance(t, l, g), |t|);
      var u := ShiftStep(t, l, g);
      nx != l && t[nx].psl == -1
      && u == t[nx := Slot(t[l].data, t[l].psl - ShiftDistance(t, l, g))][l := Vacated(t[l])]
      && Dist(Next(nx, |t|), Next(l, |t|), |t|) == ShiftDistance(t, l, g)
      && PslCorrect(u, hash, key)
      && (forall j :: 0 <= j < |t| && Dist(Next(nx, |t|), j, |t|) < ShiftDistance(t, l, g) ==> u[j].psl == -1)
  {
    var n := |t|;
    var p := t[l].psl;
    var d := ShiftDistance(t, l, g);
    var nx := Back(l, d, n);
    var u := ShiftStep(t, l, g);
    var f' := Next(nx, n);
    var h := Home(hash, key, t[l].data, n);
    DistBack(f, l, d, n);
    DistBack(h, l, d, n);
    DistShift(nx, l, n);
    assert u == t[nx := Slot(t[l].data, p - d)][l := Vacated(t[l])];
    GapBehind(t, u, f, l, g, nx);
  }

  /** The slots between a moved element's new place and its old one, and the old one itself, are empty. */
  lemma GapBehind<D>(t: seq<Slot<D>>, u: seq<Slot<D>>, f: nat, l: nat, g: nat, nx: nat)
    requires |u| == |t| && f < |t| && l < |t| && 0 < g < |t| && g == Dist(f, l, |t|)
    requires nx < |t| && nx != l && Dist(nx, l, |t|) <= g
    requires forall j :: 0 <= j < |t| && Dist(f, j, |t|) < g ==> t[j].psl == -1
    requires forall j :: 0 <= j < |t| && j != l && j != nx ==> u[j] == t[j]
    requires u[l].psl == -1
    ensures forall j :: 0 <= j < |t| && Dist(Next(nx, |t|), j, |t|) < Dist(nx, l, |t|) ==> u[j].psl == -1
  {
    var n := |t|;
    forall j | 0 <= j < n && Dist(Next(nx, n), j, n) < Dist(nx, l, n)
      ensures u[j].psl == -1
    {
      if j != l {
        DistShift(nx, j, n);
        DistAdd(f, nx, j, n);
      }
    }
  }

  /** After a shift step the order holds everywhere but the new slot after the gap, and at its boundary. */
  lemma ShiftNewOrder<K, D>(t: seq<Slot<D>>, f: nat, l: nat, g: nat, hash: K -> nat, key: D -> K)
    requires Shifting(t, f, l, g, hash, key) && t[l].psl > 0 && g > 0
    requires var nx := Back(l, ShiftDistance(t, l, g), |t|);
      nx != l && Dist(Next(nx, |t|), Next(l, |t|), |t|) == ShiftDistance(t, l, g)
      && ShiftStep(t, l, g) == t[nx := Slot(t[l].data, t[l].psl - ShiftDistance(t, l, g))][l := Vacated(t[l])]
      && (forall j :: 0 <= j < |t| && Dist(Next(nx, |t|), j, |t|) < ShiftDistance(t, l, g) ==> ShiftStep(t, l, g)[j].psl == -1)
    ensures var nx := Back(l, ShiftDistance(t, l, g), |t|);
      var u := ShiftStep(t, l, g);
      var l' := Next(l, |t|);
      var d := ShiftDistance(t, l, g);
      (forall j :: 0 <= j < |t| && j != l' && u[j].psl > 0 ==> u[Prev(j, |t|)].psl >= u[j].psl - 1)
      && (u[l'].psl > d ==> u[Prev(Next(nx, |t|), |t|)].psl >= u[l'].psl - d - 1)
  {
    var n := |t|;
    var d := ShiftDistance(t, l, g);
    var nx := Back(l, d, n);
    var u := ShiftStep(t, l, g);
    var f', l' := Next(nx, n), Next(l, n);
    assert Dist(f', f', n) == 0;
    assert u[f'].psl == -1;
    forall j | 0 <= j < n && j != l' && u[j].psl > 0
      ensures u[Prev(j, n)].psl >= u[j].psl - 1
    {
      if j == nx {
        DistBack(f, l, d, n);
        assert f == nx;
      } else {
        assert Prev(j, n) != nx && Prev(j, n) != l;
      }
    }
    assert Prev(f', n) == nx;
    if l' != nx && u[l'].psl > d {
      assert l' != l && u[l'] == t[l'];
      assert Prev(l', n) == l;
    }
  }

  /** Moving an element back into an empty slot keeps the elements and keys and lowers the psl sum. */
  lemma MoveBack<K, D>(t: seq<Slot<D>>, l: nat, nx: nat, d: nat, key: D -> K)
    requires l < |t| && nx < |t| && nx != l && t[nx].psl == -1 && 0 < d <= t[l].psl
    ensures var u := t[nx := Slot(t[l].data, t[l].psl - d)][l := Vacated(t[l])];
      Occupants(u) == Occupants(t) && SumPsl(u) + d == SumPsl(t)
      && (DistinctKeys(t, key) ==> DistinctKeys(u, key))
  {
    var m := Slot(t[l].data, t[l].psl - d);
    var t1 := t[nx := m];
    var u := t1[l := Vacated(t[l])];
    assert t1[l] == t[l];
    MoveBackOccupants(t, t1, u, l, nx, m);
    SumPslUpdate(t, nx, m);
    SumPslUpdate(t1, l, Vacated(t[l]));
  }

  lemma MoveBackOccupants<D>(t: seq<Slot<D>>, t1: seq<Slot<D>>, u: seq<Slot<D>>, l: nat, nx: nat, m: Slot<D>)
    requires l < |t| && nx < |t| && nx != l && t[nx].psl == -1 && t[l].psl != -1 && m.psl != -1
    requires m.data == t[l].data && t1 == t[nx := m] && u == t1[l := Vacated(t[l])]
    ensures Occupants(u) == Occupants(t)
  {
    OccupantsUpdate(t, nx, m);
    assert Occupants(t1) == Occupants(t) + multiset{m.data};
    assert t1[l] == t[l];
    OccupantsUpdate(t1, l, Vacated(t[l]));
    assert Occupants(u) + multiset{m.data} == Occupants(t1);
    MultisetCancel(Occupants(u), Occupants(t), m.data);
  }

  lemma MultisetCancel<D>(a: multiset<D>, b: multiset<D>, x: D)
    requires a + multiset{x} == b + multiset{x}
    ensures a == b
  {
    assert forall y :: a[y] == (a + multiset{x})[y] - multiset{x}[y];
  }

  /** Each prefix of a slot list holds a sub-multiset of its elements. */
  lemma {:induction false} OccupantsPrefix<D>(t: seq<Slot<D>>, a: nat)
    requires a <= |t|
    ensures Occupants(t[..a]) <= Occupants(t)
    ensures a < |t| ==> Occupants(t[..a + 1]) == Occupants(t[..a]) + OccupantOf(t[a])
    decreases |t| - a
  {
    if a < |t| {
      assert t[..a + 1][..a] == t[..a];
      OccupantsPrefix(t, a + 1);
    } else {
      assert t[..a] == t;
    }
  }

  /** Every element held sits in some occupied slot. */
  lemma {:induction false} OccupantsMember<D>(t: seq<Slot<D>>, x: D)
    requires x in Occupants(t)
    ensures exists j :: 0 <= j < |t| && t[j].psl != -1 && t[j].data == x
  {
    var m := |t| - 1;
    if x in Occupants(t[..m]) {
      OccupantsMember(t[..m], x);
      var j :| 0 <= j < m && t[..m][j].psl != -1 && t[..m][j].data == x;
      assert t[j] == t[..m][j];
    }
  }

  /** A key is absent exactly when no element held has it. */
  lemma KeyAbsentOccupants<K, D>(t: seq<Slot<D>>, key: D -> K, k: K)
    ensures KeyAbsent(t, key, k) <==> forall x :: x in Occupants(t) ==> key(x) != k
  {
    if KeyAbsent(t, key, k) {
      forall x | x in Occupants(t)
        ensures key(x) != k
      {
        OccupantsMember(t, x);
      }
    } else {
      var j :| 0 <= j < |t| && t[j].psl != -1 && key(t[j].data) == k;
      OccupantIn(t, j);
    }
  }

  /** Under distinct keys, no element but the one in slot `i` has that element's key. */
  lemma OnlyOneWithKey<K, D>(t: seq<Slot<D>>, i: nat, key: D -> K)
    requires DistinctKeys(t, key) && i < |t| && t[i].psl != -1
    ensures Occupants(t) == Occupants(t[i := Vacated(t[i])]) + multiset{t[i].data}
    ensures forall x :: x in Occupants(t[i := Vacated(t[i])]) ==> key(x) != key(t[i].data)
  {
    var u := t[i := Vacated(t[i])];
    OccupantsUpdate(t, i, Vacated(t[i]));
    assert KeyAbsent(u, key, key(t[i].data));
    KeyAbsentOccupants(u, key, key(t[i].data));
  }

  /** Replacing an element in place by one with the same key keeps every invariant and trades the one element for the other. */
  lemma ReplaceKeeps<K, D>(t: seq<Slot<D>>, i: nat, d: D, hash: K -> nat, key: D -> K)
    requires Table(t, hash, key) && i < |t| && t[i].psl != -1 && key(d) == key(t[i].data)
    ensures Table(t[i := Slot(d, t[i].psl)], hash, key)
    ensures Occupants(t[i := Slot(d, t[i].psl)]) + multiset{t[i].data} == Occupants(t) + multiset{d}
    ensures |Occupants(t[i := Slot(d, t[i].psl)])| == |Occupants(t)|
  {
    var u := t[i := Slot(d, t[i].psl)];
    OccupantsUpdate(t, i, Slot(d, t[i].psl));
    TradeSize(Occupants(u), Occupants(t), t[i].data, d);
    assert forall j :: 0 <= j < |t| ==> u[j].psl == t[j].psl && key(u[j].data) == key(t[j].data);
    var j :| 0 <= j < |t| && t[j].psl <= 0;
    assert u[j].psl <= 0;
  }

  lemma TradeSize<D>(a: multiset<D>, b: multiset<D>, x: D, y: D)
    requires a + multiset{x} == b + multiset{y}
    ensures |a| == |b|
  {
    assert |a + multiset{x}| == |a| + 1 && |b + multiset{y}| == |b| + 1;
  }

  /** A key absent from a slot list is absent from any list holding fewer of its elements. */
  lemma KeyAbsentFewer<K, D>(t: seq<Slot<D>>, u: seq<Slot<D>>, key: D -> K, k: K)
    requires Occupants(t) <= Occupants(u) && KeyAbsent(u, key, k)
    ensures KeyAbsent(t, key, k)
  {
    KeyAbsentOccupants(t, key, k);
    KeyAbsentOccupants(u, key, k);
  }

  /** A list of empty slots holds nothing and keeps every invariant. */
  lemma {:induction false} EmptyList<K, D>(t: seq<Slot<D>>, hash: K -> nat, key: D -> K)
    requires forall j :: 0 <= j < |t| ==> t[j].psl == -1
    ensures Occupants(t) == multiset{} && Table(t, hash, key)
  {
    if t != [] {
      EmptyList(t[..|t| - 1], hash, key);
    }
  }

  /**
   * The probe state of `Rehash`'s inner loop placing `d`: a probing state in
   * which the carried element is `d` or one it displaced, and its key is held
   * by no slot.
   */
  ghost predicate Placing<K, D>(t0: seq<Slot<D>>, t: seq<Slot<D>>, c: Slot<D>, i: nat, i0: nat, e: nat, d: D,
                                hash: K -> nat, key: D -> K)
  {
    Probing(t0, t, c, i, i0, e, hash, key)
    && Occupants(t) + multiset{c.data} == Occupants(t0) + multiset{d}
    && DistinctKeys(t, key) && KeyAbsent(t, key, key(c.data))
  }

  /** A probe step at an occupied slot keeps the placing state. */
  lemma PlacingStep<K, D>(t0: seq<Slot<D>>, t: seq<Slot<D>>, c: Slot<D>, i: nat, i0: nat, e: nat, d: D,
                          hash: K -> nat, key: D -> K)
    requires Placing(t0, t, c, i, i0, e, d, hash, key) && t[i].psl != -1
    ensures Placing(t0, ProbeStep(t, c, i).0, ProbeStep(t, c, i).1, Next(i, |t|), i0, e, d, hash, key)
    ensures Dist(i0, Next(i, |t|), |t|) == Dist(i0, i, |t|) + 1
  {
    ProbeStepKeeps(t0, t, c, i, i0, e, hash, key);
    ProbeStepOccupants(t, c, i);
    ProbeStepKeys(t, c, i, key);
  }

  /** Placing the carried element into the empty slot reached ends with a valid list holding `d` too. */
  lemma PlacingFinish<K, D>(t0: seq<Slot<D>>, t: seq<Slot<D>>, c: Slot<D>, i: nat, i0: nat, e: nat, d: D,
                            hash: K -> nat, key: D -> K)
    requires Placing(t0, t, c, i, i0, e, d, hash, key) && t[i].psl == -1
    ensures Table(t[i := c], hash, key) && Occupants(t[i := c]) == Occupants(t0) + multiset{d}
  {
    ProbeFinish(t0, t, c, i, i0, e, hash, key);
    PlaceKeys(t, c, i, key);
  }

  /**
   * The state of `Rehash` after the first `j` slots of the old list `src`
   * were placed into the new list `u`: `u` is a valid list holding exactly
   * their elements, and the keys still to come are absent from it.
   */
  ghost predicate Rehashing<K, D>(src: seq<Slot<D>>, j: nat, u: seq<Slot<D>>, hash: K -> nat, key: D -> K)
  {
    j <= |src| && DistinctKeys(src, key) && |Occupants(src)| <= |u|
    && Table(u, hash, key) && Occupants(u) == Occupants(src[..j])
    && forall a :: j <= a < |src| && src[a].psl != -1 ==> KeyAbsent(u, key, key(src[a].data))
  }

  /** A list of empty slots with room for every element of `src` starts the rehash. */
  lemma RehashStart<K, D>(src: seq<Slot<D>>, u: seq<Slot<D>>, hash: K -> nat, key: D -> K)
    requires DistinctKeys(src, key) && |Occupants(src)| <= |u|
    requires forall j :: 0 <= j < |u| ==> u[j].psl == -1
    ensures Rehashing(src, 0, u, hash, key)
  {
    EmptyList(u, hash, key);
    assert src[..0] == [];
  }

  /** The next element of `src` fits into the new list and its key is not there yet. */
  lemma RehashRoom<K, D>(src: seq<Slot<D>>, j: nat, u: seq<Slot<D>>, hash: K -> nat, key: D -> K)
    requires Rehashing(src, j, u, hash, key) && j < |src| && src[j].psl != -1
    ensures |Occupants(u)| < |u| && KeyAbsent(u, key, key(src[j].data))
  {
    PrefixFewer(src, j);
  }

  /** The slots before an occupied slot hold fewer elements than the whole list. */
  lemma PrefixFewer<D>(t: seq<Slot<D>>, j: nat)
    requires j < |t| && t[j].psl != -1
    ensures |Occupants(t[..j])| < |Occupants(t)|
  {
    OccupantsPrefix(t, j);
    OccupantsPrefix(t, j + 1);
    MultisetCardBelow(Occupants(t[..j + 1]), Occupants(t));
  }

  /** A sub-multiset is no larger. */
  lemma MultisetCardBelow<T>(a: multiset<T>, b: multiset<T>)
    requires a <= b
    ensures |a| <= |b|
  {
    assert b == a + (b - a);
  }

  /** Placing (or skipping, for an empty slot) the next slot of `src` keeps the rehash state. */
  lemma RehashNext<K, D>(src: seq<Slot<D>>, j: nat, u: seq<Slot<D>>, u': seq<Slot<D>>, hash: K -> nat, key: D -> K)
    requires Rehashing(src, j, u, hash, key) && j < |src| && |u'| == |u| && Table(u', hash, key)
    requires Occupants(u') == Occupants(u) + OccupantOf(src[j])
    ensures Rehashing(src, j + 1, u', hash, key)
  {
    OccupantsPrefix(src, j);
    forall a | j + 1 <= a < |src| && src[a].psl != -1
      ensures KeyAbsent(u', key, key(src[a].data))
    {
      KeyAbsentOccupants(u, key, key(src[a].data));
      KeyAbsentOccupants(u', key, key(src[a].data));
    }
  }

  /** After the last slot the new list holds exactly the elements of `src`. */
  lemma RehashEnd<K, D>(src: seq<Slot<D>>, u: seq<Slot<D>>, hash: K -> nat, key: D -> K)
    requires Rehashing(src, |src|, u, hash, key)
    ensures Table(u, hash, key) && Occupants(u) == Occupants(src)
  {
    assert src[..|src|] == src;
  }

  /**
   * The probe state of `Emplace` when the new element's key is absent: a
   * placing state in which, once the new element took a slot (`placed`),
   * `first` is that slot and it is behind the probe; before that the list is
   * untouched and the new element is the one carried.
   */
  ghost predicate Inserting<K, D>(t0: seq<Slot<D>>, t: seq<Slot<D>>, c: Slot<D>, i: nat, i0: nat, e: nat, d: D,
                                  first: nat, placed: bool, hash: K -> nat, key: D -> K)
  {
    Placing(t0, t, c, i, i0, e, d, hash, key)
    && (placed ==> first < |t| && Dist(i0, first, |t|) < Dist(i0, i, |t|) && t[first].psl != -1 && t[first].data == d)
    && (!placed ==> first == |t| && c.data == d && t == t0)
  }

  /** `Emplace` of an element whose key is absent starts in an inserting state. */
  lemma InsertingStart<K, D>(t0: seq<Slot<D>>, e: nat, d: D, hash: K -> nat, key: D -> K)
    requires Table(t0, hash, key) && e < |t0| && t0[e].psl == -1 && KeyAbsent(t0, key, key(d))
    ensures Inserting(t0, t0, Slot(d, 0), Home(hash, key, d, |t0|), Home(hash, key, d, |t0|), e, d, |t0|, false, hash, key)
  {
    ProbeStart(t0, d, e, hash, key);
  }

  /**
   * A probe step of `Emplace` at an occupied slot: the occupant's key differs
   * from the carried one, and the step keeps the inserting state, the new
   * element's slot being recorded at its first swap.
   */
  lemma InsertingStep<K, D>(t0: seq<Slot<D>>, t: seq<Slot<D>>, c: Slot<D>, i: nat, i0: nat, e: nat, d: D,
                            first: nat, placed: bool, hash: K -> nat, key: D -> K)
    requires Inserting(t0, t, c, i, i0, e, d, first, placed, hash, key) && t[i].psl != -1
    ensures key(c.data) != key(t[i].data)
    ensures Dist(i0, Next(i, |t|), |t|) == Dist(i0, i, |t|) + 1
    ensures var swap := c.psl > t[i].psl;
      Inserting(t0, ProbeStep(t, c, i).0, ProbeStep(t, c, i).1, Next(i, |t|), i0, e, d,
                if swap && first == |t| then i else first, placed || swap, hash, key)
  {
    PlacingStep(t0, t, c, i, i0, e, d, hash, key);
  }

  /** `Emplace` reaching an empty slot ends with a valid list holding `d` at the recorded slot. */
  lemma InsertingFinish<K, D>(t0: seq<Slot<D>>, t: seq<Slot<D>>, c: Slot<D>, i: nat, i0: nat, e: nat, d: D,
                              first: nat, placed: bool, hash: K -> nat, key: D -> K)
    requires Inserting(t0, t, c, i, i0, e, d, first, placed, hash, key) && t[i].psl == -1
    ensures Table(t[i := c], hash, key) && Occupants(t[i := c]) == Occupants(t0) + multiset{d}
    ensures var f := if first == |t| then i else first;
      f < |t| && t[i := c][f].psl != -1 && t[i := c][f].data == d
  {
    PlacingFinish(t0, t, c, i, i0, e, d, hash, key);
  }

  /**
   * The probe state of `Emplace` when slot `j` already holds the new
   * element's key: the list is untouched, the new element is carried from
   * its home, and the probe has not passed `j`.
   */
  ghost predicate Matching<K, D>(t0: seq<Slot<D>>, t: seq<Slot<D>>, c: Slot<D>, i: nat, i0: nat, j: nat, d: D,
                                 first: nat, placed: bool, hash: K -> nat, key: D -> K)
  {
    t == t0 && Table(t0, hash, key) && !placed && first == |t0|
    && i < |t0| && j < |t0| && i0 == Home(hash, key, d, |t0|)
    && t0[j].psl != -1 && key(t0[j].data) == key(d)
    && c == Slot(d, Dist(i0, i, |t0|)) && Dist(i0, i, |t0|) <= Dist(i0, j, |t0|)
  }

  /** `Emplace` of an element whose key slot `j` holds starts in a matching state. */
  lemma MatchingStart<K, D>(t0: seq<Slot<D>>, j: nat, d: D, hash: K -> nat, key: D -> K)
    requires Table(t0, hash, key) && j < |t0| && t0[j].psl != -1 && key(t0[j].data) == key(d)
    ensures Matching(t0, t0, Slot(d, 0), Home(hash, key, d, |t0|), Home(hash, key, d, |t0|), j, d, |t0|, false, hash, key)
  {
  }

  /**
   * Until the probe reaches `j`, every slot it meets holds an element
   * displaced at least as far as the new one, under another key, so the
   * probe moves on without a swap.
   */
  lemma MatchingAhead<K, D>(t0: seq<Slot<D>>, t: seq<Slot<D>>, c: Slot<D>, i: nat, i0: nat, j: nat, d: D,
                            first: nat, placed: bool, hash: K -> nat, key: D -> K)
    requires Matching(t0, t, c, i, i0, j, d, first, placed, hash, key)
    ensures t[i].psl >= c.psl >= 0
    ensures i != j ==> key(t[i].data) != key(d) && Dist(i0, Next(i, |t|), |t|) == Dist(i0, i, |t|) + 1
    ensures i != j ==> Matching(t0, t, Slot(d, c.psl + 1), Next(i, |t|), i0, j, d, first, placed, hash, key)
  {
    var n := |t|;
    assert Home(hash, key, t[j].data, n) == i0;
    DuplicateAhead(t, j, i, hash, key);
    if i != j {
      assert Dist(i0, i, n) < Dist(i0, j, n);
      DistNext(i0, i, n);
    }
  }

  /** The probe state of `Emplace`: inserting when the key is absent, else matching the slot `j` holding it. */
  ghost predicate Emplacing<K, D>(absent: bool, t0: seq<Slot<D>>, t: seq<Slot<D>>, c: Slot<D>, i: nat, i0: nat, e: nat, j: nat,
                                  d: D, first: nat, placed: bool, hash: K -> nat, key: D -> K)
  {
    (absent <==> KeyAbsent(t0, key, key(d)))
    && if absent then Inserting(t0, t, c, i, i0, e, d, first, placed, hash, key)
    else Matching(t0, t, c, i, i0, j, d, first, placed, hash, key)
  }

  /** How many more slots the probe of `Emplace` can visit: up to the empty slot `e`, or up to `j`. */
  function ProbeBudget(absent: bool, i: nat, i0: nat, e: nat, j: nat, n: nat): int
    requires i < n && i0 < n && e < n && j < n
  {
    if absent then Dist(i0, e, n) - Dist(i0, i, n) else Dist(i0, j, n) - Dist(i0, i, n)
  }

  /** `Emplace` starts in a probe state, given an empty slot `e` and, for a present key, its slot `j`. */
  lemma EmplacingStart<K, D>(absent: bool, t0: seq<Slot<D>>, e: nat, j: nat, d: D, hash: K -> nat, key: D -> K)
    requires Table(t0, hash, key) && e < |t0| && t0[e].psl == -1 && (absent <==> KeyAbsent(t0, key, key(d)))
    requires !absent ==> j < |t0| && t0[j].psl != -1 && key(t0[j].data) == key(d)
    ensures Emplacing(absent, t0, t0, Slot(d, 0), Home(hash, key, d, |t0|), Home(hash, key, d, |t0|), e, j, d, |t0|, false, hash, key)
  {
    if absent {
      InsertingStart(t0, e, d, hash, key);
    } else {
      MatchingStart(t0, j, d, hash, key);
    }
  }

  /** A list with an empty slot has a probe state for `Emplace` to start in. */
  lemma ProbeSetup<K, D>(t0: seq<Slot<D>>, d: D, hash: K -> nat, key: D -> K) returns (absent: bool, e: nat, j: nat)
    requires Table(t0, hash, key) && |Occupants(t0)| < |t0|
    ensures e < |t0| && j < |t0|
    ensures Emplacing(absent, t0, t0, Slot(d, 0), Home(hash, key, d, |t0|), Home(hash, key, d, |t0|), e, j, d, |t0|, false, hash, key)
  {
    OccupantsBound(t0);
    e :| 0 <= e < |t0| && t0[e].psl == -1;
    absent := KeyAbsent(t0, key, key(d));
    j := e;
    if !absent {
      j :| 0 <= j < |t0| && t0[j].psl != -1 && key(t0[j].data) == key(d);
    }
    EmplacingStart(absent, t0, e, j, d, hash, key);
  }

  /**
   * A probe step of `Emplace` at an occupied slot whose key is not the new
   * one (or after the new element was placed) keeps the probe state and uses
   * up one slot of the budget.
   */
  lemma EmplacingStep<K, D>(absent: bool, t0: seq<Slot<D>>, t: seq<Slot<D>>, c: Slot<D>, i: nat, i0: nat, e: nat, j: nat,
                            d: D, first: nat, placed: bool, hash: K -> nat, key: D -> K)
    requires Emplacing(absent, t0, t, c, i, i0, e, j, d, first, placed, hash, key) && e < |t| && j < |t|
    requires t[i].psl != -1 && (placed || key(c.data) != key(t[i].data))
    ensures var swap := c.psl > t[i].psl;
      Emplacing(absent, t0, ProbeStep(t, c, i).0, ProbeStep(t, c, i).1, Next(i, |t|), i0, e, j, d,
                if swap && first == |t| then i else first, placed || swap, hash, key)
    ensures 0 <= ProbeBudget(absent, Next(i, |t|), i0, e, j, |t|) < ProbeBudget(absent, i, i0, e, j, |t|)
  {
    if absent {
      InsertingStep(t0, t, c, i, i0, e, d, first, placed, hash, key);
    } else {
      MatchingAhead(t0, t, c, i, i0, j, d, first, placed, hash, key);
    }
  }

  /** The probe of `Emplace` meets an empty slot only when the key is absent, and placing there completes it. */
  lemma EmplacingEmpty<K, D>(absent: bool, t0: seq<Slot<D>>, t: seq<Slot<D>>, c: Slot<D>, i: nat, i0: nat, e: nat, j: nat,
                             d: D, first: nat, placed: bool, hash: K -> nat, key: D -> K)
    requires Emplacing(absent, t0, t, c, i, i0, e, j, d, first, placed, hash, key) && t[i].psl == -1
    ensures Emplaced(t0, t[i := c], d, if first == |t| then i else first, true, hash, key)
  {
    if absent {
      InsertingFinish(t0, t, c, i, i0, e, d, first, placed, hash, key);
    } else {
      MatchingAhead(t0, t, c, i, i0, j, d, first, placed, hash, key);
      assert false;
    }
  }

  /** Before the first swap, the probe of `Emplace` meets the new key only where the list already holds it. */
  lemma EmplacingFound<K, D>(absent: bool, t0: seq<Slot<D>>, t: seq<Slot<D>>, c: Slot<D>, i: nat, i0: nat, e: nat, j: nat,
                             d: D, first: nat, placed: bool, hash: K -> nat, key: D -> K)
    requires Emplacing(absent, t0, t, c, i, i0, e, j, d, first, placed, hash, key)
    requires t[i].psl != -1 && !placed && key(c.data) == key(t[i].data)
    ensures Emplaced(t0, t, d, i, false, hash, key)
  {
    if absent {
      InsertingStep(t0, t, c, i, i0, e, d, first, placed, hash, key);
    }
  }

  /**
   * What the probe of `Emplace` leaves: a valid list, holding `d` too exactly
   * when its key was absent, and the index of `d` or of the element with its key.
   */
  ghost predicate Emplaced<K, D>(t0: seq<Slot<D>>, t: seq<Slot<D>>, d: D, index: nat, inserted: bool,
                                 hash: K -> nat, key: D -> K)
  {
    Table(t, hash, key) && |t| == |t0|
    && (inserted <==> KeyAbsent(t0, key, key(d)))
    && Occupants(t) == Occupants(t0) + (if inserted then multiset{d} else multiset{})
    && index < |t| && t[index].psl != -1
    && (if inserted then t[index].data == d else key(t[index].data) == key(d))
  }

  /** `t` with the `k` slots from slot `f` on vacated, wrapping around: what the erase loop leaves. */
  function Vacate<D>(t: seq<Slot<D>>, f: nat, k: nat): (r: seq<Slot<D>>)
    requires f < |t| && k <= |t|
    ensures |r| == |t|
  {
    seq(|t|, j requires 0 <= j < |t| => if Dist(f, j, |t|) < k then Vacated(t[j]) else t[j])
  }

  /** Vacating one more slot of the range: the slot `k` steps after `f`, untouched so far. */
  lemma VacateStep<D>(t: seq<Slot<D>>, f: nat, k: nat)
    requires f < |t| && k < |t|
    ensures Vacate(t, f, k)[Add(f, k, |t|)] == t[Add(f, k, |t|)]
    ensures Vacate(t, f, k + 1) == Vacate(t, f, k)[Add(f, k, |t|) := Vacated(t[Add(f, k, |t|)])]
  {
    var n := |t|;
    AddDist(f, k, n);
    var u := Vacate(t, f, k)[Add(f, k, n) := Vacated(t[Add(f, k, n)])];
    forall j | 0 <= j < n
      ensures Vacate(t, f, k + 1)[j] == u[j]
    {
    }
  }

  /** The erase loop removes exactly the elements of the range from the list. */
  lemma {:induction false} VacateOccupants<D>(t: seq<Slot<D>>, f: nat, k: nat)
    requires f < |t| && k <= |t|
    ensures Occupants(Vacate(t, f, k)) + RangeOccupants(t, f, k) == Occupants(t)
  {
    if k == 0 {
      assert Vacate(t, f, 0) == t;
    } else {
      ghost var k1 := k - 1;
      VacateOccupants(t, f, k1);
      VacateOccupantsStep(t, f, k1);
      assert k1 + 1 == k;
    }
  }

  /** One more vacated slot moves its occupant from the list to the range. */
  lemma VacateOccupantsStep<D>(t: seq<Slot<D>>, f: nat, k: nat)
    requires f < |t| && k < |t|
    requires Occupants(Vacate(t, f, k)) + RangeOccupants(t, f, k) == Occupants(t)
    ensures Occupants(Vacate(t, f, k + 1)) + RangeOccupants(t, f, k + 1) == Occupants(t)
  {
    var i := Add(f, k, |t|);
    var u := Vacate(t, f, k);
    VacateStep(t, f, k);
    OccupantsUpdate(u, i, Vacated(t[i]));
    MultisetStep(Occupants(Vacate(t, f, k + 1)), Occupants(u), Occupants(t), OccupantOf(t[i]), RangeOccupants(t, f, k));
  }

  lemma MultisetStep<D>(a: multiset<D>, b: multiset<D>, c: multiset<D>, x: multiset<D>, r: multiset<D>)
    requires a + x == b + multiset{} && b + r == c
    ensures a + (r + x) == c
  {
    assert a + (r + x) == (a + x) + r;
  }

  /**
   * The slot lists and removal counts of `Erase`'s first loop, turn by turn:
   * turn `k` vacates the slot `k` steps after `f`, which still holds what it
   * held at the start, and counts its element if it had one. After `length`
   * turns the range is vacated and the count is the number of elements the
   * range held.
   */
  lemma VacateStates<D>(t0: seq<Slot<D>>, f: nat, length: nat) returns (states: seq<seq<Slot<D>>>, counts: seq<nat>)
    requires f < |t0| && length <= |t0|
    ensures |states| == length + 1 && |counts| == length + 1 && states[0] == t0 && counts[0] == 0
    ensures states[length] == Vacate(t0, f, length) && counts[length] == |RangeOccupants(t0, f, length)|
    ensures forall k :: 0 <= k < length ==>
      |states[k]| == |t0| && states[k][Add(f, k, |t0|)] == t0[Add(f, k, |t0|)]
      && states[k + 1] == states[k][Add(f, k, |t0|) := Vacated(t0[Add(f, k, |t0|)])]
      && counts[k + 1] == counts[k] + (if t0[Add(f, k, |t0|)].psl != -1 then 1 else 0)
  {
    if length == 0 {
      VacateNone(t0, f);
      states, counts := [t0], [0];
    } else {
      var k := length - 1;
      var before, counted := VacateStates(t0, f, k);
      VacateStep(t0, f, k);
      RangeCountStep(t0, f, k);
      states := before + [Vacate(t0, f, length)];
      counts := counted + [|RangeOccupants(t0, f, length)|];
      assert states[k] == Vacate(t0, f, k) && counts[k] == |RangeOccupants(t0, f, k)|;
    }
  }

  /** Vacating no slot changes nothing. */
  lemma VacateNone<D>(t: seq<Slot<D>>, f: nat)
    requires f < |t|
    ensures Vacate(t, f, 0) == t
  {
    forall j | 0 <= j < |t|
      ensures Vacate(t, f, 0)[j] == t[j]
    {
    }
  }

  /** One more slot of the range adds one to its element count if it holds an element. */
  lemma RangeCountStep<D>(t: seq<Slot<D>>, f: nat, k: nat)
    requires f < |t| && k < |t|
    ensures |RangeOccupants(t, f, k + 1)| == |RangeOccupants(t, f, k)| + (if t[Add(f, k, |t|)].psl != -1 then 1 else 0)
  {
    assert RangeOccupants(t, f, k + 1) == RangeOccupants(t, f, k) + OccupantOf(t[Add(f, k, |t|)]);
  }

  /** Vacating slots keeps the keys of the remaining elements distinct. */
  lemma VacateKeys<K, D>(t: seq<Slot<D>>, f: nat, k: nat, key: D -> K)
    requires f < |t| && k <= |t| && DistinctKeys(t, key)
    ensures DistinctKeys(Vacate(t, f, k), key)
  {
  }

  /**
   * The state of `Erase`'s shift loop over the list `t1` the erase loop left:
   * a shifting state holding the same elements under distinct keys; while
   * there is no gap the list is still `t1`, and `a` is a slot that stops the
   * loop.
   */
  ghost predicate Closing<K, D>(t1: seq<Slot<D>>, t: seq<Slot<D>>, f: nat, l: nat, g: nat, a: nat, hash: K -> nat, key: D -> K)
  {
    Shifting(t, f, l, g, hash, key) && Occupants(t) == Occupants(t1) && DistinctKeys(t, key)
    && a < |t| && (g == 0 ==> t == t1 && t[a].psl <= 0)
  }

  /** What the shift loop has left to do: lower the psl sum over a gap, else reach the slot `a`. */
  ghost function ShiftMeasure<D>(t: seq<Slot<D>>, l: nat, g: nat, a: nat): nat
    requires l < |t| && a < |t|
  {
    if g > 0 then SumPsl(t) else Dist(l, a, |t|)
  }

  /**
   * After the erase loop vacated the `g` slots from `f` on, the shift loop
   * starts at the slot after them (at `f` itself when the whole list was
   * vacated).
   */
  lemma ClosingStart<K, D>(t0: seq<Slot<D>>, f: nat, g: nat, a: nat, hash: K -> nat, key: D -> K)
    requires Table(t0, hash, key) && f < |t0| && g <= |t0| && a < |t0| && (g == 0 ==> t0[a].psl <= 0)
    ensures var t1 := Vacate(t0, f, g);
      Closing(t1, t1, f, if g < |t1| then Add(f, g, |t1|) else f, g, a, hash, key)
  {
    var t1 := Vacate(t0, f, g);
    EraseStart(t0, t1, f, g, hash, key);
    VacateKeys(t0, f, g, key);
    if g == 0 {
      assert t1 == t0;
    }
  }

  /** A shift step keeps the closing state, its new gap is the distance it moved, and it makes progress. */
  lemma ClosingStep<K, D>(t1: seq<Slot<D>>, t: seq<Slot<D>>, f: nat, l: nat, g: nat, a: nat, hash: K -> nat, key: D -> K)
    requires Closing(t1, t, f, l, g, a, hash, key) && t[l].psl > 0
    ensures var d := ShiftDistance(t, l, g);
      var nx := Back(l, d, |t|);
      var u := ShiftStep(t, l, g);
      Closing(t1, u, Next(nx, |t|), Next(l, |t|), d, a, hash, key)
      && Dist(Next(nx, |t|), Next(l, |t|), |t|) == d
      && ShiftMeasure(u, Next(l, |t|), d, a) < ShiftMeasure(t, l, g, a)
  {
    if g == 0 {
      ClosingStepEmpty(t1, t, f, l, a, hash, key);
    } else {
      ClosingStepGap(t1, t, f, l, g, a, hash, key);
    }
  }

  /** With no gap yet, a shift step only moves on, one slot closer to the stopping slot. */
  lemma ClosingStepEmpty<K, D>(t1: seq<Slot<D>>, t: seq<Slot<D>>, f: nat, l: nat, a: nat, hash: K -> nat, key: D -> K)
    requires Closing(t1, t, f, l, 0, a, hash, key) && t[l].psl > 0
    ensures var d := ShiftDistance(t, l, 0);
      var nx := Back(l, d, |t|);
      var u := ShiftStep(t, l, 0);
      Closing(t1, u, Next(nx, |t|), Next(l, |t|), d, a, hash, key)
      && Dist(Next(nx, |t|), Next(l, |t|), |t|) == d
      && ShiftMeasure(u, Next(l, |t|), d, a) < ShiftMeasure(t, l, 0, a)
  {
    ShiftStepEmptyGap(t, f, l, hash, key);
    assert l != a;
    DistNextStart(l, a, |t|);
  }

  /** Over a gap, a shift step moves one element back and lowers the psl sum. */
  lemma ClosingStepGap<K, D>(t1: seq<Slot<D>>, t: seq<Slot<D>>, f: nat, l: nat, g: nat, a: nat, hash: K -> nat, key: D -> K)
    requires Closing(t1, t, f, l, g, a, hash, key) && t[l].psl > 0 && g > 0
    ensures var d := ShiftDistance(t, l, g);
      var nx := Back(l, d, |t|);
      var u := ShiftStep(t, l, g);
      Closing(t1, u, Next(nx, |t|), Next(l, |t|), d, a, hash, key)
      && Dist(Next(nx, |t|), Next(l, |t|), |t|) == d
      && ShiftMeasure(u, Next(l, |t|), d, a) < ShiftMeasure(t, l, g, a)
  {
    var d, nx, u := ShiftStepKeeps(t, f, l, g, hash, key);
    MoveBack(t, l, nx, d, key);
    assert Occupants(u) == Occupants(t1) && DistinctKeys(u, key) && SumPsl(u) < SumPsl(t);
  }

  /** The shift loop stops at a slot holding no displaced element, leaving a valid list. */
  lemma ClosingEnd<K, D>(t1: seq<Slot<D>>, t: seq<Slot<D>>, f: nat, l: nat, g: nat, a: nat, hash: K -> nat, key: D -> K)
    requires Closing(t1, t, f, l, g, a, hash, key) && t[l].psl <= 0
    ensures Table(t, hash, key) && Occupants(t) == Occupants(t1)
  {
  }
}
