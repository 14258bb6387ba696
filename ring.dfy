/**
 * Index arithmetic on a ring of `n` slots. The hash table's probe, erase and
 * shift loops move through their slot array with `(i + 1) % n`,
 * `(n + i - d) % n` and `(offset + first) % n`; these functions compute the
 * same values by comparison and subtraction, and `ModuloAgrees` states the
 * `%` forms they agree with.
 */
module Ring {

  /** The slot after `i`. */
  function Next(i: nat, n: nat): (r: nat)
    requires i < n
    ensures r < n && Back(r, 1, n) == i
  {
    if i + 1 == n then 0 else i + 1
  }

  /** The slot `k` steps after `a`. */
  function Add(a: nat, k: nat, n: nat): (r: nat)
    requires a < n && k <= n
    ensures r < n
  {
    if a + k < n then a + k else a + k - n
  }

  /** The slot `d` steps before `i`. */
  function Back(i: nat, d: nat, n: nat): (r: nat)
    requires i < n && d <= n
    ensures r < n
    ensures Add(r, d, n) == i
  {
    if d <= i then i - d else n + i - d
  }

  /** The slot before `i`. */
  function Prev(i: nat, n: nat): (r: nat)
    requires i < n
    ensures r < n && Next(r, n) == i
  {
    Back(i, 1, n)
  }

  /** How many steps forward lead from slot `a` to slot `b`. */
  function Dist(a: nat, b: nat, n: nat): (r: nat)
    requires a < n && b < n
    ensures r < n && Add(a, r, n) == b
    ensures r == 0 <==> a == b
  {
    if a <= b then b - a else n + b - a
  }

  /** The ring functions compute the source's `%` expressions. */
  lemma ModuloAgrees(a: nat, b: nat, k: nat, n: nat)
    requires a < n && b < n && k <= n
    ensures Next(a, n) == (a + 1) % n
    ensures Add(a, k, n) == (a + k) % n
    ensures Back(a, k, n) == (n + a - k) % n
    ensures Dist(a, b, n) == (n + b - a) % n
  {
    ModBelow(a + 1, n);
    ModBelow(a + k, n);
    ModBelow(n + a - k, n);
    ModBelow(n + b - a, n);
  }

  /** `%` on a value below `2 * n` subtracts `n` at most once. */
  lemma ModBelow(x: int, n: int)
    requires 0 < n && 0 <= x < 2 * n
    ensures x % n == if x < n then x else x - n
  {
    if n <= x {
      assert (x - n) % n == x % n;
    }
  }

  /** One step further from `a`, unless the step closes the ring. */
  lemma DistNext(a: nat, b: nat, n: nat)
    requires a < n && b < n && Dist(a, b, n) + 1 < n
    ensures Dist(a, Next(b, n), n) == Dist(a, b, n) + 1
  {
  }

  /** Stepping back `d` slots from `b` shortens the way from `a` by `d`. */
  lemma DistBack(a: nat, b: nat, d: nat, n: nat)
    requires a < n && b < n && d <= Dist(a, b, n)
    ensures Dist(a, Back(b, d, n), n) == Dist(a, b, n) - d
    ensures Dist(Back(b, d, n), b, n) == d
  {
  }

  /** Moving both ends one slot on keeps their distance. */
  lemma DistShift(a: nat, b: nat, n: nat)
    requires a < n && b < n
    ensures Dist(Next(a, n), Next(b, n), n) == Dist(a, b, n)
  {
  }

  /** Distances along the ring add up while they stay below one full turn. */
  lemma DistAdd(a: nat, b: nat, c: nat, n: nat)
    requires a < n && b < n && c < n && Dist(a, b, n) + Dist(b, c, n) < n
    ensures Dist(a, c, n) == Dist(a, b, n) + Dist(b, c, n)
  {
  }

  /** Stepping the start towards a different end shortens the way by one. */
  lemma DistNextStart(a: nat, b: nat, n: nat)
    requires a < n && b < n && a != b
    ensures Dist(Next(a, n), b, n) + 1 == Dist(a, b, n)
  {
  }

  /** The slot `k` steps after `a` is `k` steps away from it, short of a full turn. */
  lemma AddDist(a: nat, k: nat, n: nat)
    requires a < n && k < n
    ensures Dist(a, Add(a, k, n), n) == k
  {
  }
}
