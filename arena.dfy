/**
 * The page-per-allocation allocator `wtr::Arena`. Every `Allocate` takes a
 * block of its own from `::operator new`, puts a page header at the end of
 * the block and links the page in at the tail of a ring closed by a sentinel
 * page. The ring is the sequence of the pages' blocks, from the sentinel's
 * `next` on, and each block's page header sits at the offset `headers` gives;
 * `::operator new` is a parameter: the block it hands out, or null.
 */
module Arenas {
  import opened Memory

  /** `s` without its first occurrence of `b`; `s` itself when `b` does not occur. */
  function RemoveFirst(s: seq<nat>, b: nat): seq<nat>
  {
    if s == [] then []
    else if s[0] == b then s[1..]
    else [s[0]] + RemoveFirst(s[1..], b)
  }

  /** Where `Allocate(memorySize)` puts the page header: `memorySize` rounded up to `alignof(Page)`. */
  function HeaderOffset(memorySize: nat): (r: nat)
    ensures r % PageAlign == 0 && memorySize <= r < memorySize + PageAlign
  {
    memorySize + Padding(memorySize, PageAlign)
  }

  /** No offset between `memorySize` and the header's is aligned: the header sits as close as it can. */
  lemma HeaderOffsetLeast(memorySize: nat, k: nat)
    requires memorySize <= k < HeaderOffset(memorySize)
    ensures k % PageAlign != 0
  {
    PaddingLeast(memorySize, PageAlign, k - memorySize);
  }

  /** Without an occurrence, nothing is removed. */
  lemma {:induction false} RemoveFirstAbsent(s: seq<nat>, b: nat)
    requires b !in s
    ensures RemoveFirst(s, b) == s
  {
    if s != [] {
      RemoveFirstAbsent(s[1..], b);
      assert s == [s[0]] + s[1..];
    }
  }

  /** The first occurrence of `b` at `i`: removing it keeps what lies before and after. */
  lemma {:induction false} RemoveFirstSplit(s: seq<nat>, b: nat, i: nat)
    requires i < |s| && s[i] == b && b !in s[..i]
    ensures RemoveFirst(s, b) == s[..i] + s[i + 1..]
  {
    if i > 0 {
      assert s[0] in s[..i];
      assert s[1..][..i - 1] == s[1..i];
      RemoveFirstSplit(s[1..], b, i - 1);
      assert s[..i] == [s[0]] + s[1..i];
      assert s[i + 1..] == s[1..][i..];
    }
  }

  /** One copy fewer of `b` when there was one, the same elements otherwise. */
  lemma {:induction false} RemoveFirstMultiset(s: seq<nat>, b: nat)
    ensures multiset(RemoveFirst(s, b)) == multiset(s) - multiset{b}
  {
    if s != [] {
      assert s == [s[0]] + s[1..];
      assert multiset(s) == multiset{s[0]} + multiset(s[1..]);
      if s[0] != b {
        var rest := RemoveFirst(s[1..], b);
        RemoveFirstMultiset(s[1..], b);
        assert RemoveFirst(s, b) == [s[0]] + rest;
        assert multiset([s[0]] + rest) == multiset{s[0]} + multiset(rest);
      }
    }
  }

  /** Dropping one entry of a sequence without repeats leaves no repeats. */
  lemma DistinctWithout(s: seq<nat>, i: nat)
    requires i < |s| && forall j, k :: 0 <= j < k < |s| ==> s[j] != s[k]
    ensures var t := s[..i] + s[i + 1..]; forall j, k :: 0 <= j < k < |t| ==> t[j] != t[k]
  {
    var t := s[..i] + s[i + 1..];
    forall j, k | 0 <= j < k < |t|
      ensures t[j] != t[k]
    {
      var j', k' := if j < i then j else j + 1, if k < i then k else k + 1;
      assert t[j] == s[j'] && t[k] == s[k'];
    }
  }

  /** Freeing the block just allocated gives back the ring as it was. */
  lemma {:induction false} RemoveFirstUndoesAppend(s: seq<nat>, b: nat)
    requires b !in s
    ensures RemoveFirst(s + [b], b) == s
  {
    if s != [] {
      assert (s + [b])[1..] == s[1..] + [b];
      RemoveFirstUndoesAppend(s[1..], b);
    }
  }

  class Arena {
    /** The blocks of the ring's pages, from the sentinel's `next` on. */
    var pages: seq<nat>
    /** For each block in the ring, the offset within it of its page header. */
    var headers: map<nat, nat>

    /**
     * No block is in the ring twice (`::operator new` never hands out a block
     * in use), and exactly the ring's blocks have a header, each at an aligned offset.
     */
    ghost predicate Valid()
      reads this
    {
      && (forall i, j :: 0 <= i < j < |pages| ==> pages[i] != pages[j])
      && (forall b :: b in headers <==> b in pages)
      && (forall b :: b in headers ==> headers[b] % PageAlign == 0)
    }

    /** A new arena: the sentinel links to itself, so there are no pages. */
    constructor ()
      ensures Valid() && pages == [] && headers == map[]
    {
      pages := [];
      headers := map[];
    }

    /** The move constructor: every page moves over and the source is left without pages. */
    constructor Move(other: Arena)
      requires other.Valid()
      modifies other
      ensures Valid() && other.Valid()
      ensures pages == old(other.pages) && headers == old(other.headers)
      ensures other.pages == [] && other.headers == map[]
    {
      pages := other.pages;
      headers := other.headers;
      new;
      other.pages := [];
      other.headers := map[];
    }

    /**
     * Move assignment: from another arena with pages, this arena frees its own
     * pages and takes the other's, which is left empty; from itself or from an
     * arena without pages, nothing changes.
     */
    method MoveAssign(other: Arena)
      requires Valid() && other.Valid()
      modifies this, other
      ensures Valid() && other.Valid()
      ensures if other != this && old(other.pages) != [] then
                pages == old(other.pages) && headers == old(other.headers) && other.pages == [] && other.headers == map[]
              else
                pages == old(pages) && headers == old(headers) && other.pages == old(other.pages) && other.headers == old(other.headers)
    {
      if other != this && other.pages != [] {
        pages := other.pages;
        headers := other.headers;
        other.pages := [];
        other.headers := map[];
      }
    }

    /**
     * `Allocate(memorySize)`: ask `::operator new` for a block with room for
     * `memorySize` bytes, the padding to `HeaderOffset` and a page header
     * (the block, or null, is `memory`).
     * On success the block's page header is placed at `HeaderOffset(memorySize)`,
     * past the `memorySize` bytes handed out, the page goes to the tail of the
     * ring and the block is returned; on failure null is returned and nothing changes.
     */
    method Allocate(memorySize: nat, memory: Pointer) returns (r: Pointer)
      requires Valid()
      requires memory.Ptr? ==> memory.offset == 0 && memory.block !in pages
      modifies this
      ensures Valid()
      ensures memory == Null ==> r == Null && pages == old(pages) && headers == old(headers)
      ensures memory.Ptr? ==> r == memory && pages == old(pages) + [memory.block]
      ensures memory.Ptr? ==> headers == old(headers)[memory.block := HeaderOffset(memorySize)]
    {
      if memory == Null {
        return Null;
      }
      pages := pages + [memory.block];
      headers := headers[memory.block := HeaderOffset(memorySize)];
      return memory;
    }

    /**
     * `Deallocate(pointer)`: nothing for null; otherwise walk the ring from
     * the front and unlink the first page whose block is `pointer`, if any.
     */
    method Deallocate(pointer: Pointer)
      requires Valid()
      modifies this
      ensures Valid()
      ensures pages == if pointer.Ptr? && pointer.offset == 0 then RemoveFirst(old(pages), pointer.block) else old(pages)
      ensures headers == if pointer.Ptr? && pointer.offset == 0 then old(headers) - {pointer.block} else old(headers)
    {
      if pointer == Null {
        return;
      }
      var i := 0;
      while i < |pages|
        invariant i <= |pages| && pages == old(pages) && headers == old(headers)
        invariant forall j :: 0 <= j < i ==> Ptr(pages[j], 0) != pointer
      {
        if Ptr(pages[i], 0) == pointer {
          assert pointer.block !in pages[..i];
          RemoveFirstSplit(pages, pointer.block, i);
          DistinctWithout(pages, i);
          pages := pages[..i] + pages[i + 1..];
          headers := headers - {pointer.block};
          return;
        }
        i := i + 1;
      }
      if pointer.offset == 0 {
        RemoveFirstAbsent(pages, pointer.block);
        assert headers - {pointer.block} == headers;
      }
    }
  }
}
