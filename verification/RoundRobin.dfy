// internal/bootstrap/database.go: DB.Read, round robin over an atomic counter that wraps at 64 bits.

module RoundRobin {
  /** Values of an atomic.Uint64. */
  const WRAP := 0x1_0000_0000_0000_0000

  function Add64(a: int, b: int): int { (a + b) % WRAP }
  function Sub64(a: int, b: int): int { (a - b) % WRAP }

  class Database<Pool> {
    const write: Pool
    const replicas: seq<Pool>
    var rr: int

    ghost predicate Valid()
      reads this
    {
      0 <= rr < WRAP && |replicas| < WRAP
    }

    constructor (write: Pool, replicas: seq<Pool>)
      requires |replicas| < WRAP
      ensures Valid() && rr == 0 && this.write == write && this.replicas == replicas
    {
      this.write, this.replicas, rr := write, replicas, 0;
    }

    /** Call number c (counting modulo 2^64) gets replica c mod n; without replicas it gets the write pool. */
    method Read() returns (pool: Pool)
      requires Valid()
      modifies this
      ensures Valid()
      ensures if replicas == [] then pool == write && rr == old(rr)
              else pool == replicas[old(rr) % |replicas|] && rr == Add64(old(rr), 1)
    {
      if |replicas| == 0 { return write; }
      rr := Add64(rr, 1);
      var idx := rr;
      assert Sub64(idx, 1) == old(rr);
      return replicas[Sub64(idx, 1) % |replicas|];
    }
  }

  /** How often k calls in a row, the first at counter c, pick replica r of n. */
  function Picks(c: nat, k: nat, r: nat, n: nat): nat
    requires c < WRAP && n > 0
    decreases k
  {
    if k == 0 then 0 else (if c % n == r then 1 else 0) + Picks(Add64(c, 1), k - 1, r, n)
  }

  /** How often the counter wraps between the first and the last of those calls. */
  function Wraps(c: nat, k: nat): nat {
    if k == 0 then 0 else (c + k - 1) / WRAP
  }

  // ----- Division facts -----

  lemma SmallMultipleIsZero(d: int, n: int)
    requires n > 0 && -n < d * n < n
    ensures d == 0
  {
  }

  lemma DivModUnique(x: int, n: int, q: int, m: int)
    requires n > 0 && x == q * n + m && 0 <= m < n
    ensures x / n == q && x % n == m
  {
    var q', m' := x / n, x % n;
    assert x == q' * n + m';
    assert (q - q') * n == m' - m;
    SmallMultipleIsZero(q - q', n);
  }

  lemma AddAdd64(c: nat, a: nat, b: nat)
    ensures Add64(Add64(c, a), b) == Add64(c, a + b)
    ensures Add64(c % WRAP, a) == (c + a) % WRAP
  {
  }

  /** Numbers below x that leave remainder r. */
  function Below(x: nat, r: nat, n: nat): nat
    requires n > 0
  {
    if x == 0 then 0 else Below(x - 1, r, n) + if (x - 1) % n == r then 1 else 0
  }

  lemma NextDivMod(x: nat, n: nat)
    requires n > 0
    ensures (x + 1) / n == (if x % n + 1 < n then x / n else x / n + 1)
    ensures (x + 1) % n == (if x % n + 1 < n then x % n + 1 else 0)
  {
    var q, m := x / n, x % n;
    assert x == q * n + m;
    if m + 1 < n {
      DivModUnique(x + 1, n, q, m + 1);
    } else {
      assert (q + 1) * n == q * n + n;
      DivModUnique(x + 1, n, q + 1, 0);
    }
  }

  lemma {:induction false} BelowClosed(x: nat, r: nat, n: nat)
    requires r < n
    ensures Below(x, r, n) == x / n + if r < x % n then 1 else 0
  {
    if x == 0 {
      DivModUnique(0, n, 0, 0);
    } else {
      BelowClosed(x - 1, r, n);
      NextDivMod(x - 1, n);
    }
  }

  lemma BelowStep(x: nat, r: nat, n: nat)
    requires n > 0
    ensures Below(x + 1, r, n) == Below(x, r, n) + if x % n == r then 1 else 0
  {
  }

  // ----- Fairness -----

  lemma SmallIsUnwrapped(c: nat)
    requires c < WRAP
    ensures c % WRAP == c
  {
  }

  lemma {:induction false} PicksWithoutWrap(c: nat, k: nat, r: nat, n: nat)
    requires c < WRAP && c + k <= WRAP && r < n
    ensures Picks(c, k, r, n) == Below(c + k, r, n) - Below(c, r, n)
    decreases k
  {
    if k > 0 {
      BelowStep(c, r, n);
      if k > 1 {
        SmallIsUnwrapped(c + 1);
        PicksWithoutWrap(c + 1, k - 1, r, n);
      }
    }
  }

  lemma {:induction false} PicksSplit(c: nat, k: nat, more: nat, r: nat, n: nat)
    requires c < WRAP && n > 0
    ensures Picks(c, k + more, r, n) == Picks(c, k, r, n) + Picks(Add64(c, k), more, r, n)
    decreases k
  {
    if k == 0 {
      SmallIsUnwrapped(c);
    } else {
      AddAdd64(c, 1, k - 1);
      PicksSplit(Add64(c, 1), k - 1, more, r, n);
      assert k + more - 1 == k - 1 + more;
    }
  }

  lemma BelowIsFair(x: nat, y: nat, a: nat, b: nat, n: nat)
    requires a < n && b < n
    ensures -1 <= (Below(y, a, n) - Below(x, a, n)) - (Below(y, b, n) - Below(x, b, n)) <= 1
  {
    BelowClosed(x, a, n);
    BelowClosed(x, b, n);
    BelowClosed(y, a, n);
    BelowClosed(y, b, n);
  }

  /** Any two replicas are picked equally often, up to one pick plus one for each wrap of the counter. */
  lemma {:induction false} RoundRobinIsFair(c: nat, k: nat, a: nat, b: nat, n: nat)
    requires c < WRAP && a < n && b < n
    ensures -(Wraps(c, k) + 1) <= Picks(c, k, a, n) - Picks(c, k, b, n) <= Wraps(c, k) + 1
    decreases k
  {
    if c + k <= WRAP {
      PicksWithoutWrap(c, k, a, n);
      PicksWithoutWrap(c, k, b, n);
      BelowIsFair(c, c + k, a, b, n);
    } else {
      var first := WRAP - c;
      PicksSplit(c, first, k - first, a, n);
      PicksSplit(c, first, k - first, b, n);
      PicksWithoutWrap(c, first, a, n);
      PicksWithoutWrap(c, first, b, n);
      BelowIsFair(c, WRAP, a, b, n);
      RoundRobinIsFair(0, k - first, a, b, n);
      assert Wraps(c, k) == Wraps(0, k - first) + 1;
    }
  }

  // ----- When wrapping costs nothing -----

  lemma WrapKeepsRemainder(x: nat, n: nat)
    requires 0 < n && WRAP % n == 0
    ensures (x % WRAP) % n == x % n
  {
    var q := x / WRAP;
    var k := WRAP / n;
    assert x == q * WRAP + x % WRAP;
    assert WRAP == k * n;
    var m := x % WRAP;
    assert x == (q * k + m / n) * n + m % n by {
      assert q * (k * n) == (q * k) * n;
      assert m == (m / n) * n + m % n;
      assert (q * k) * n + (m / n) * n == (q * k + m / n) * n;
    }
    DivModUnique(x, n, q * k + m / n, m % n);
  }

  /** With x the unwrapped call number. */
  lemma {:induction false} PicksWhenDividing(c: nat, x: nat, k: nat, r: nat, n: nat)
    requires r < n && WRAP % n == 0 && c == x % WRAP
    ensures Picks(c, k, r, n) == Below(x + k, r, n) - Below(x, r, n)
    decreases k
  {
    if k > 0 {
      WrapKeepsRemainder(x, n);
      AddAdd64(x, 1, 0);
      PicksWhenDividing(Add64(c, 1), x + 1, k - 1, r, n);
    }
  }

  /** Call counts that start `m` calls before a wrap and end `m` calls after the last of w wraps. */
  function Stretch(m: nat, w: nat): nat
    requires w > 0
  {
    m + ((w - 1) * WRAP + m)
  }

  lemma StretchWraps(m: nat, w: nat)
    requires 0 < m < WRAP && w > 0
    ensures Wraps(WRAP - m, Stretch(m, w)) == w
  {
    DivModUnique(WRAP - m + Stretch(m, w) - 1, WRAP, w, m - 1);
  }

  lemma BeforeTheWrap(m: nat, n: nat)
    requires 0 < n < WRAP && m == WRAP % n
    ensures (WRAP - m) % n == 0
  {
    DivModUnique(WRAP - m, n, WRAP / n, 0);
  }

  /** How many more picks replica 0 gets than replica m. */
  function Lead(c: nat, k: nat, m: nat, n: nat): int
    requires c < WRAP && n > 0
  {
    Picks(c, k, 0, n) - Picks(c, k, m, n)
  }

  lemma LeadOfOne(c: nat, k: nat, m: nat, n: nat)
    requires c < WRAP && c + k <= WRAP && 0 < m < n
    requires c % n == 0 && (c + k) % n == m
    ensures Lead(c, k, m, n) == 1
  {
    PicksWithoutWrap(c, k, 0, n);
    PicksWithoutWrap(c, k, m, n);
    BelowClosed(c + k, 0, n);
    BelowClosed(c + k, m, n);
    BelowClosed(c, 0, n);
    BelowClosed(c, m, n);
  }

  lemma LeadsAdd(c: nat, k: nat, more: nat, m: nat, n: nat)
    requires c < WRAP && c + k == WRAP && n > 0
    ensures Lead(c, k + more, m, n) == Lead(c, k, m, n) + Lead(0, more, m, n)
  {
    PicksSplit(c, k, more, 0, n);
    PicksSplit(c, k, more, m, n);
  }

  /** From counter 0, each full cycle and the m calls after the last one pick replica 0 once more than replica m. */
  lemma {:induction false} CyclesFavourTheFirst(j: nat, m: nat, n: nat)
    requires 0 < n < WRAP && m == WRAP % n != 0
    ensures Lead(0, j * WRAP + m, m, n) == j + 1
  {
    DivModUnique(0, n, 0, 0);
    if j == 0 {
      DivModUnique(m, n, 0, m);
      LeadOfOne(0, m, m, n);
    } else {
      var rest := (j - 1) * WRAP + m;
      assert j * WRAP + m == WRAP + rest;
      LeadsAdd(0, WRAP, rest, m, n);
      LeadOfOne(0, WRAP, m, n);
      CyclesFavourTheFirst(j - 1, m, n);
    }
  }

  /** Partner of RoundRobinIsFair: for any number of wraps some stretch of calls with that many reaches its bound,
      unless n divides 2^64. */
  lemma WrapsAreUnfair(n: nat, w: nat)
    requires 0 < n < WRAP && WRAP % n != 0 && w > 0
    ensures var m := WRAP % n;
            var c, k := WRAP - m, Stretch(m, w);
            Wraps(c, k) == w && Picks(c, k, 0, n) - Picks(c, k, m, n) == w + 1
  {
    var m := WRAP % n;
    StretchWraps(m, w);
    BeforeTheWrap(m, n);
    LeadOfOne(WRAP - m, m, m, n);
    LeadsAdd(WRAP - m, m, (w - 1) * WRAP + m, m, n);
    CyclesFavourTheFirst(w - 1, m, n);
    assert Lead(WRAP - m, Stretch(m, w), m, n) == w + 1;
  }

  ghost predicate AlwaysWithinOne(n: nat)
    requires n > 0
  {
    forall c: nat, k: nat, a: nat, b: nat :: c < WRAP && a < n && b < n ==> Picks(c, k, a, n) - Picks(c, k, b, n) <= 1
  }

  lemma DividingIsFair(c: nat, k: nat, a: nat, b: nat, n: nat)
    requires c < WRAP && a < n && b < n && WRAP % n == 0
    ensures Picks(c, k, a, n) - Picks(c, k, b, n) <= 1
  {
    SmallIsUnwrapped(c);
    PicksWhenDividing(c, c, k, a, n);
    PicksWhenDividing(c, c, k, b, n);
    BelowIsFair(c, c + k, a, b, n);
  }

  /** Pick counts stay within one of each other for ever exactly when n divides 2^64. */
  lemma WithinOneIffDividing(n: nat)
    requires 0 < n < WRAP
    ensures AlwaysWithinOne(n) <==> WRAP % n == 0
  {
    if WRAP % n == 0 {
      forall c: nat, k: nat, a: nat, b: nat | c < WRAP && a < n && b < n
        ensures Picks(c, k, a, n) - Picks(c, k, b, n) <= 1
      {
        DividingIsFair(c, k, a, b, n);
      }
    } else {
      WrapsAreUnfair(n, 1);
    }
  }
}
