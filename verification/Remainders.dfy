/** Remainders as places on a circle. */
module Remainders {
  import opened Grid

  function Next(i: int, n: int): int {
    if i + 1 == n then 0 else i + 1
  }

  /** No other remainder than the one division gives. */
  lemma RemainderUnique(a: int, n: int, q: int, x: int)
    requires 0 <= x < n && a == q * n + x
    ensures a % n == x
  {
    var p := a / n;
    assert a == p * n + a % n;
    if p < q {
      MulMonotone(p + 1, q, n);
      MulAdd(p, 1, n);
    } else if q < p {
      MulMonotone(q + 1, p, n);
      MulAdd(q, 1, n);
    }
  }

  lemma RemainderNext(a: int, n: int)
    requires n > 0
    ensures (a + 1) % n == Next(a % n, n)
  {
    var q := a / n;
    assert a == q * n + a % n;
    if a % n + 1 == n {
      MulAdd(q, 1, n);
      RemainderUnique(a + 1, n, q + 1, 0);
    } else {
      RemainderUnique(a + 1, n, q, a % n + 1);
    }
  }

  lemma RemainderBefore(a: int, n: int)
    requires n > 0
    ensures (a - 1) % n == (a % n + n - 1) % n
  {
    var q := a / n;
    assert a == q * n + a % n;
    if a % n == 0 {
      MulAdd(q, -1, n);
      RemainderUnique(a - 1, n, q - 1, n - 1);
      RemainderUnique(n - 1, n, 0, n - 1);
    } else {
      RemainderUnique(a - 1, n, q, a % n - 1);
      RemainderUnique(a % n + n - 1, n, 1, a % n - 1);
    }
  }

  /** Less than one round apart, remainders differ. */
  lemma RemaindersDiffer(a: int, i: int, n: int)
    requires 0 < i < n
    ensures (a + i) % n != a % n
  {
    var q, p := a / n, (a + i) / n;
    assert a == q * n + a % n && a + i == p * n + (a + i) % n;
    if (a + i) % n == a % n {
      if p <= q {
        MulMonotone(p, q, n);
      } else {
        MulMonotone(q + 1, p, n);
        MulAdd(q, 1, n);
      }
    }
  }
}
