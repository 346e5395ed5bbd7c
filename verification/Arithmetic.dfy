/** Remainders, and how often consecutive integers fall into a window of residues. */
module Arithmetic {

  function Min(a: int, b: int): (m: int)
    ensures m <= a && m <= b && (m == a || m == b)
  {
    if a <= b then a else b
  }

  function Max(a: int, b: int): (m: int)
    ensures m >= a && m >= b && (m == a || m == b)
  {
    if a >= b then a else b
  }

  lemma {:induction false} RemainderUnique(x: int, m: int, q: int, r: int)
    requires m > 0 && 0 <= r < m && x == q * m + r
    ensures x % m == r && x / m == q
  {
    var d := x / m - q;
    assert -m < d * m < m;
    assert d == 0;
  }

  lemma {:induction false} RemainderShift(x: int, m: int, k: int)
    requires m > 0
    ensures (x + k * m) % m == x % m
  {
    assert x + k * m == (x / m + k) * m + x % m;
    RemainderUnique(x + k * m, m, x / m + k, x % m);
  }

  lemma {:induction false} RemainderOfSum(x: int, y: int, m: int)
    requires m > 0
    ensures (x % m + y) % m == (x + y) % m
  {
    RemainderShift(x + y, m, -(x / m));
    assert x + y + -(x / m) * m == x % m + y;
  }

  /** A remainder may be taken twice when the inner modulus is a multiple of the outer one. */
  lemma {:induction false} RemainderTwice(x: int, big: int, m: int)
    requires m > 0 && big > 0 && big % m == 0
    ensures x % big % m == x % m
  {
    var k := -(x / big) * (big / m);
    calc {
      x % big;
      x - x / big * big;
      { assert big == big / m * m; }
      x - x / big * (big / m * m);
      { assert x / big * (big / m * m) == (x / big * (big / m)) * m; }
      x + k * m;
    }
    RemainderShift(x, m, k);
  }

  predicate InWindow(x: int, m: int, a: int, w: int)
    requires m > 0
  {
    a <= x % m < a + w
  }

  /** How many of 0, 1, ..., n - 1 have their residue modulo m in [a, a + w). */
  function WindowCount(n: nat, m: int, a: int, w: int): nat
    requires m > 0
  {
    if n == 0 then 0 else WindowCount(n - 1, m, a, w) + if InWindow(n - 1, m, a, w) then 1 else 0
  }

  lemma {:induction false} WindowCountFirstPeriod(n: nat, m: int, a: int, w: int)
    requires 0 <= a && 0 <= w && a + w <= m && 0 < m && n <= m
    ensures WindowCount(n, m, a, w) == Min(Max(n - a, 0), w)
  {
    if n > 0 {
      WindowCountFirstPeriod(n - 1, m, a, w);
      RemainderUnique(n - 1, m, 0, n - 1);
    }
  }

  lemma {:induction false} WindowCountPeriod(n: nat, m: int, a: int, w: int)
    requires 0 <= a && 0 <= w && a + w <= m && 0 < m
    ensures WindowCount(n + m, m, a, w) == WindowCount(n, m, a, w) + w
  {
    if n == 0 {
      WindowCountFirstPeriod(m, m, a, w);
    } else {
      WindowCountPeriod(n - 1, m, a, w);
      RemainderShift(n - 1, m, 1);
      assert n + m - 1 == (n - 1) + m;
    }
  }

  lemma {:induction false} WindowCountPeriods(n: nat, q: nat, m: int, a: int, w: int)
    requires 0 <= a && 0 <= w && a + w <= m && 0 < m
    ensures 0 <= q * m && WindowCount(n + q * m, m, a, w) == WindowCount(n, m, a, w) + q * w
  {
    if q > 0 {
      WindowCountPeriods(n, q - 1, m, a, w);
      assert q * m == (q - 1) * m + m;
      assert q * w == (q - 1) * w + w;
      WindowCountPeriod(n + (q - 1) * m, m, a, w);
    }
  }

  lemma {:induction false} WindowCountGrowth(n: nat, r: nat, m: int, a: int, w: int)
    requires m > 0
    ensures WindowCount(n, m, a, w) <= WindowCount(n + r, m, a, w) <= WindowCount(n, m, a, w) + r
  {
    if r > 0 {
      WindowCountGrowth(n, r - 1, m, a, w);
    }
  }

  lemma {:induction false} WindowCountRounds(start: nat, n: nat, q: nat, r: nat, m: int, a: int, w: int)
    requires 0 <= a && 0 <= w && a + w <= m && r < m && n == q * m + r
    ensures q * w + Max(0, w + r - m)
         <= WindowCount(start + n, m, a, w) - WindowCount(start, m, a, w)
         <= q * w + Min(w, r)
  {
    WindowCountPeriods(start, q, m, a, w);
    var k := start + q * m;
    WindowCountGrowth(k, r, m, a, w);
    WindowCountPeriod(k, m, a, w);
    WindowCountGrowth(k + r, m - r, m, a, w);
  }

  /** Exact bounds for n consecutive integers starting anywhere: n / m full periods and a rest. */
  lemma {:induction false} WindowCountFair(start: nat, n: nat, m: int, a: int, w: int)
    requires 0 <= a && 0 <= w && a + w <= m && 0 < m
    ensures n / m * w + Max(0, w + n % m - m)
         <= WindowCount(start + n, m, a, w) - WindowCount(start, m, a, w)
         <= n / m * w + Min(w, n % m)
  {
    WindowCountRounds(start, n, n / m, n % m, m, a, w);
  }
}
