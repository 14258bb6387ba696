/**
 * The bump allocator `wtr::LinearArena`. Pages come from `::operator new`
 * (a parameter: the block it hands out, or null) and are linked at the tail
 * of a ring closed by a sentinel page, whose offset and size are 0. An
 * allocation is cut from the tail page at its offset, padded up to the
 * requested alignment; a new page is opened when the tail cannot take it.
 * Every allocation stays valid until `Reset`; a ghost record of them shows
 * that no two overlap.
 */
module LinearArenas {
  import opened Memory

  /** `Page::MIN_SIZE`: 64 KiB. */
  const MinPageSize: nat := 64 * 1024

  /** A page: its block, the offset of the next free byte and the usable size. */
  datatype Page = Page(block: nat, offset: nat, size: nat)

  /** An allocation: `length` bytes from byte `start` of the page at position `page` of the ring. */
  datatype Region = Region(page: nat, start: nat, length: nat)

  /** The usable size of a page opened for `objectSize` bytes: at least 64 KiB, rounded up to `alignof(Page)`. */
  function PageSize(objectSize: nat): (r: nat)
    ensures objectSize <= r && MinPageSize <= r && r % PageAlign == 0
    ensures r < (if objectSize >= MinPageSize then objectSize else MinPageSize) + PageAlign
  {
    var pageSize := if objectSize >= MinPageSize then objectSize else MinPageSize;
    pageSize + Padding(pageSize, PageAlign)
  }

  /** The page `Allocate` looks at first: the tail, or the sentinel when there are no pages. */
  function Tail(pages: seq<Page>): Page
  {
    if pages == [] then Page(0, 0, 0) else pages[|pages| - 1]
  }

  /**
   * `Allocate` opens a page when the tail is the sentinel, is full, or cannot
   * take the padded object with a byte to spare (the test is `>=`, so an exact
   * fit opens a page too).
   */
  predicate NeedsPage(pages: seq<Page>, objectSize: nat, alignSize: nat)
    requires alignSize > 0
  {
    var tail := Tail(pages);
    pages == [] || tail.offset == tail.size
    || tail.offset + objectSize + Padding(tail.offset, alignSize) >= tail.size
  }

  /** The allocation cut from page `p`: where it starts, and the page with its offset moved past it. */
  function Bump(p: Page, objectSize: nat, alignSize: nat): (r: (nat, Page))
    requires alignSize > 0
    ensures r.0 % alignSize == 0 && p.offset <= r.0 < p.offset + alignSize
    ensures r.1 == p.(offset := r.0 + objectSize)
  {
    var start := p.offset + Padding(p.offset, alignSize);
    (start, p.(offset := start + objectSize))
  }

  /** Two allocations share no byte: they lie in different pages or one ends before the other starts. */
  predicate Disjoint(a: Region, b: Region)
  {
    a.page != b.page || a.start + a.length <= b.start || b.start + b.length <= a.start
  }

  class LinearArena {
    /** The ring's pages, from the sentinel's `next` on. */
    var pages: seq<Page>
    /** The allocations handed out since the last `Reset`. */
    ghost var live: seq<Region>

    /**
     * No page is used past its size, no block is in the ring twice, every
     * live allocation lies below its page's offset, and no two overlap.
     */
    ghost predicate Valid()
      reads this
    {
      (forall i :: 0 <= i < |pages| ==> pages[i].offset <= pages[i].size)
      && (forall i, j :: 0 <= i < j < |pages| ==> pages[i].block != pages[j].block)
      && (forall k :: 0 <= k < |live| ==>
            live[k].page < |pages| && live[k].start + live[k].length <= pages[live[k].page].offset)
      && (forall k, l :: 0 <= k < l < |live| ==> Disjoint(live[k], live[l]))
    }

    /** A new arena: no pages. */
    constructor ()
      ensures Valid() && pages == [] && live == []
    {
      pages := [];
      live := [];
    }

    /** The move constructor: the ring moves over and the source is left without pages. */
    constructor Move(other: LinearArena)
      requires other.Valid()
      modifies other
      ensures Valid() && other.Valid()
      ensures pages == old(other.pages) && live == old(other.live) && other.pages == [] && other.live == []
    {
      pages := other.pages;
      live := other.live;
      new;
      other.pages := [];
      other.live := [];
    }

    /**
     * Move assignment: from another arena with pages, release this arena's
     * pages and take the other's ring, leaving it empty; otherwise nothing
     * changes.
     */
    method MoveAssign(other: LinearArena)
      requires Valid() && other.Valid()
      modifies this, other
      ensures Valid() && other.Valid()
      ensures if other != this && old(other.pages) != [] then
                pages == old(other.pages) && live == old(other.live) && other.pages == [] && other.live == []
              else pages == old(pages) && live == old(live) && other.pages == old(other.pages) && other.live == old(other.live)
    {
      if other != this && other.pages != [] {
        pages, live := other.pages, other.live;
        other.pages, other.live := [], [];
      }
    }

    /**
     * `Allocate(objectSize, alignSize)`: when `NeedsPage`, ask `::operator
     * new` for a page of `PageSize(objectSize)` usable bytes (returning null
     * if it fails) and link it at the tail; then cut the object from the
     * tail page with `Bump`. The new allocation overlaps none handed out
     * since the last `Reset`.
     */
    method Allocate(objectSize: nat, alignSize: nat, memory: Pointer) returns (r: Pointer)
      requires Valid() && alignSize > 0
      requires memory.Ptr? ==> memory.offset == 0 && forall i :: 0 <= i < |pages| ==> pages[i].block != memory.block
      modifies this
      ensures Valid()
      ensures NeedsPage(old(pages), objectSize, alignSize) && memory == Null ==>
        r == Null && pages == old(pages) && live == old(live)
      ensures !NeedsPage(old(pages), objectSize, alignSize) || memory.Ptr? ==>
        var base := if NeedsPage(old(pages), objectSize, alignSize)
                    then old(pages) + [Page(memory.block, 0, PageSize(objectSize))] else old(pages);
        var cut := Bump(base[|base| - 1], objectSize, alignSize);
        |base| > 0 && pages == base[|base| - 1 := cut.1] && r == Ptr(cut.1.block, cut.0)
        && cut.0 + objectSize <= cut.1.size
        && live == old(live) + [Region(|base| - 1, cut.0, objectSize)]
    {
      var tail := Tail(pages);
      var paddingSize := Padding(tail.offset, alignSize);
      if pages == [] || tail.offset == tail.size || tail.offset + objectSize + paddingSize >= tail.size {
        if memory == Null {
          return Null;
        }
        AddPage(Page(memory.block, 0, PageSize(objectSize)));
      }
      r := Cut(objectSize, alignSize);
    }

    /** Link a fresh, unused page in at the tail. */
    method AddPage(p: Page)
      requires Valid() && p.offset == 0 && forall i :: 0 <= i < |pages| ==> pages[i].block != p.block
      modifies this
      ensures Valid() && pages == old(pages) + [p] && live == old(live)
    {
      pages := pages + [p];
    }

    /** Cut `objectSize` bytes, aligned to `alignSize`, from a tail page that has room for them. */
    method Cut(objectSize: nat, alignSize: nat) returns (r: Pointer)
      requires Valid() && alignSize > 0 && pages != []
      requires Tail(pages).offset + Padding(Tail(pages).offset, alignSize) + objectSize <= Tail(pages).size
      modifies this
      ensures Valid()
      ensures var cut := Bump(old(pages)[|old(pages)| - 1], objectSize, alignSize);
        pages == old(pages)[|old(pages)| - 1 := cut.1] && r == Ptr(cut.1.block, cut.0)
        && live == old(live) + [Region(|old(pages)| - 1, cut.0, objectSize)]
    {
      var last := |pages| - 1;
      var cut := Bump(pages[last], objectSize, alignSize);
      ghost var region := Region(last, cut.0, objectSize);
      forall k | 0 <= k < |live|
        ensures Disjoint(live[k], region)
      {
        if live[k].page == last {
          assert live[k].start + live[k].length <= pages[last].offset;
        }
      }
      pages := pages[last := cut.1];
      live := live + [region];
      r := Ptr(cut.1.block, cut.0);
    }

    /** `Reset()`: every page's offset goes back to 0; the pages stay, in order, and no allocation remains valid. */
    method Reset()
      requires Valid()
      modifies this
      ensures Valid() && live == [] && |pages| == |old(pages)|
      ensures forall i :: 0 <= i < |pages| ==> pages[i] == old(pages)[i].(offset := 0)
    {
      live := [];
      var i := 0;
      while i < |pages|
        invariant i <= |pages| == |old(pages)| && Valid() && live == []
        invariant forall j :: 0 <= j < i ==> pages[j] == old(pages)[j].(offset := 0)
        invariant forall j :: i <= j < |pages| ==> pages[j] == old(pages)[j]
      {
        pages := pages[i := pages[i].(offset := 0)];
        i := i + 1;
      }
    }
  }

  /** A page opened for an object holds it: the first cut from it fits, and it never needs another page at once. */
  lemma NewPageFits(block: nat, objectSize: nat, alignSize: nat)
    requires alignSize > 0
    ensures var p := Page(block, 0, PageSize(objectSize));
      Bump(p, objectSize, alignSize).0 == 0 && objectSize <= p.size
  {
    assert Padding(0, alignSize) == 0;
  }

  /** Without a new page, the tail has room for the padded object, with a byte to spare. */
  lemma TailFits(pages: seq<Page>, objectSize: nat, alignSize: nat)
    requires alignSize > 0 && !NeedsPage(pages, objectSize, alignSize)
    ensures pages != [] && Bump(Tail(pages), objectSize, alignSize).0 + objectSize < Tail(pages).size
  {
  }
}
