/**
 * Memory as the two allocators see it, without raw addresses: a pointer is
 * null or a byte offset into a block that `::operator new` handed out, and
 * blocks are told apart by an id.
 */
module Memory {

  /** `void*`: null, or byte `offset` of block `block`. */
  datatype Pointer = Null | Ptr(block: nat, offset: nat)

  /** `alignof(Page)` for both allocators' page headers (pointers and `size_t` on a 64-bit target). */
  const PageAlign: nat := 8

  /** `(align - x % align) % align`: the bytes that take `x` up to the next multiple of `align`. */
  function Padding(x: nat, align: nat): (r: nat)
    requires align > 0
    ensures r < align && (x + r) % align == 0
    ensures r == if x % align == 0 then 0 else align - x % align
  {
    PaddingRoundsUp(x, align);
    (align - x % align) % align
  }

  lemma PaddingRoundsUp(x: nat, align: nat)
    requires align > 0
    ensures (align - x % align) % align == if x % align == 0 then 0 else align - x % align
    ensures (x + (align - x % align) % align) % align == 0
  {
    var q, m := x / align, x % align;
    DivMod(x, align);
    if m == 0 {
      ModUnique(align, align, 1, 0);
    } else {
      ModUnique(align - m, align, 0, align - m);
      ModUnique(x + (align - m), align, q + 1, 0);
    }
  }

  /** Dafny's `/` and `%` split a natural number into quotient and remainder. */
  lemma DivMod(y: nat, a: nat)
    requires a > 0
    ensures y == (y / a) * a + y % a && 0 <= y % a < a && y / a >= 0
  {
  }

  /** The remainder is unique: `q * a + r` with `r < a` leaves remainder `r`. */
  lemma ModUnique(y: nat, a: nat, q: nat, r: nat)
    requires a > 0 && r < a && y == q * a + r
    ensures y % a == r
  {
    var q0, r0 := y / a, y % a;
    DivMod(y, a);
    if q0 < q {
      MulMonotone(q0 + 1, q, a);
    } else if q < q0 {
      MulMonotone(q + 1, q0, a);
    }
  }

  lemma MulMonotone(i: nat, j: nat, a: nat)
    requires i <= j
    ensures i * a <= j * a
  {
  }

  /** No smaller padding reaches a multiple of `align`: `x + Padding(x, align)` is `x` rounded up. */
  lemma PaddingLeast(x: nat, align: nat, k: nat)
    requires align > 0 && k < Padding(x, align)
    ensures (x + k) % align != 0
  {
    var q, m := x / align, x % align;
    DivMod(x, align);
    ModUnique(x + k, align, q, m + k);
  }
}
